/**
 The text of a JSON Pointer as RFC 6901 reads it: reference tokens between slashes, each with its escapes replaced in
 two passes; and a URI fragment, whose characters are percent-encoded.  Parse is shown to accept exactly such texts,
 and where it departs from section 6, which decodes a fragment before it looks for slashes.
 */
module PointerText {
  import opened Bytes
  import opened Characters
  import opened Pointer
  import Unicode

  // ---------- What the text says ----------

  /** Every `~` with this digit replaced by a character. */
  function Replaced(t: bytes, digit: byte, c: byte): bytes {
    if t == [] then []
    else if |t| >= 2 && t[0] == 0x7E && t[1] == digit then [c] + Replaced(t[2..], digit, c)
    else [t[0]] + Replaced(t[1..], digit, c)
  }

  /** Section 4 of RFC 6901: first every `~1` is replaced by a slash, then every `~0` by a tilde. */
  function Unescape(t: bytes): bytes { Replaced(Replaced(t, 0x31, 0x2F), 0x30, 0x7E) }

  predicate Triplet(t: bytes) { |t| >= 3 && t[0] == 0x25 && HexValue(t[1]) >= 0 && HexValue(t[2]) >= 0 }

  function TripletValue(t: bytes): byte
    requires Triplet(t)
  {
    HexValue(t[1]) * 16 + HexValue(t[2])
  }

  /** Every triplet replaced by its value. */
  function PercentDecoded(t: bytes): bytes {
    if t == [] then []
    else if Triplet(t) then [TripletValue(t)] + PercentDecoded(t[3..])
    else [t[0]] + PercentDecoded(t[1..])
  }

  /** Nothing but unreserved characters and triplets. */
  predicate Clean(t: bytes) {
    || t == []
    || (Triplet(t) && Clean(t[3..]))
    || (!NeedPercentEncode(t[0]) && Clean(t[1..]))
  }

  /** Every tilde is followed by 0 or 1. */
  predicate Escaped(t: bytes) {
    || t == []
    || (Escaped(t[1..]) && (t[0] == 0x7E ==> |t| > 1 && t[1] in {0x30, 0x31}))
  }

  /** In a fragment, also a tilde that is encoded; but the 0 or 1 may not be. */
  predicate FragmentEscaped(t: bytes) {
    || t == []
    || if Triplet(t) then FragmentEscaped(t[3..]) && (TripletValue(t) == 0x7E ==> |t| > 3 && t[3] in {0x30, 0x31})
       else FragmentEscaped(t[1..]) && (t[0] == 0x7E ==> |t| > 1 && t[1] in {0x30, 0x31})
  }

  /** A reference token as it may stand in the text. */
  predicate Good(t: bytes, fragment: bool) {
    if fragment then Clean(t) && FragmentEscaped(t) && Unicode.WellFormed(PercentDecoded(t)) else Escaped(t)
  }

  /** The name that it stands for. */
  function NameOf(t: bytes, fragment: bool): bytes { Unescape(if fragment then PercentDecoded(t) else t) }

  /** The next slash, or the end. */
  function SlashAt(s: bytes, i: nat): (n: nat)
    requires i <= |s|
    ensures i <= n <= |s| && (n == |s| || s[n] == 0x2F)
    ensures forall k :: i <= k < n ==> s[k] != 0x2F
    decreases |s| - i
  {
    if i == |s| || s[i] == 0x2F then i else SlashAt(s, i + 1)
  }

  /** The texts behind the slashes from a position on. */
  function References(s: bytes, i: nat): seq<bytes>
    requires i <= |s|
    decreases |s| - i
  {
    if i == |s| then [] else [s[i + 1..SlashAt(s, i + 1)]] + References(s, SlashAt(s, i + 1))
  }

  function Names(ts: seq<Token>): (r: seq<bytes>)
    ensures |r| == |ts| && forall k :: 0 <= k < |ts| ==> r[k] == ts[k].name
  {
    seq(|ts|, k requires 0 <= k < |ts| => ts[k].name)
  }

  function NamesOf(rs: seq<bytes>, fragment: bool): (r: seq<bytes>)
    ensures |r| == |rs| && forall k :: 0 <= k < |rs| ==> r[k] == NameOf(rs[k], fragment)
  {
    seq(|rs|, k requires 0 <= k < |rs| => NameOf(rs[k], fragment))
  }

  predicate AllGood(rs: seq<bytes>, fragment: bool) { forall k :: 0 <= k < |rs| ==> Good(rs[k], fragment) }

  // ---------- One pass of the loop, on the string form ----------

  lemma ReplacedPlain(t: bytes, digit: byte, c: byte)
    requires t != [] && t[0] != 0x7E
    ensures Replaced(t, digit, c) == [t[0]] + Replaced(t[1..], digit, c)
  {
  }

  lemma UnescapePlain(c: byte, rest: bytes)
    requires c != 0x7E
    ensures Unescape([c] + rest) == [c] + Unescape(rest)
  {
    hide Replaced;
    ReplacedPlain([c] + rest, 0x31, 0x2F);
    assert ([c] + rest)[1..] == rest;
    var r := Replaced(rest, 0x31, 0x2F);
    ReplacedPlain([c] + r, 0x30, 0x7E);
    assert ([c] + r)[1..] == r;
  }

  /** A tilde and its digit. */
  lemma UnescapeTilde(d: byte, rest: bytes)
    requires d in {0x30, 0x31}
    ensures Unescape([0x7E, d] + rest) == [if d == 0x31 then 0x2F else 0x7E] + Unescape(rest)
  {
    var t := [0x7E, d] + rest;
    var r := Replaced(rest, 0x31, 0x2F);
    assert t[2..] == rest && t[1..] == [d] + rest && ([d] + rest)[1..] == rest;
    if d == 0x31 {
      assert Replaced(t, 0x31, 0x2F) == [0x2F] + r;
      assert ([0x2F] + r)[1..] == r;
    } else {
      assert Replaced(t, 0x31, 0x2F) == [0x7E] + ([0x30] + r);
      var u := [0x7E] + ([0x30] + r);
      assert u[2..] == r;
    }
  }

  /** What is stored for the piece in front, and the rest is good and stands for the rest. */
  predicate Peels(s: bytes, i: nat, n: nat, fragment: bool)
    requires i < n <= |s|
  {
    match TokenStep(s, i, fragment)
    case Wrong(_, _) => !Good(s[i..n], fragment)
    case Stored(next, units, _) =>
      if next > n then !Good(s[i..n], fragment)
      else
        && Good(s[i..n], fragment) == Good(s[next..n], fragment)
        && (Good(s[i..n], fragment) ==> NameOf(s[i..n], fragment) == units + NameOf(s[next..n], fragment))
  }

  lemma PeelPlain(s: bytes, i: nat, n: nat)
    requires i < n <= |s| && s[i] != 0x2F && (n == |s| || s[n] == 0x2F)
    ensures Peels(s, i, n, false)
  {
    hide Unescape;
    var t := s[i..n];
    assert t[1..] == s[i + 1..n] && t == [s[i]] + t[1..];
    if s[i] != 0x7E {
      UnescapePlain(s[i], t[1..]);
    } else if i + 1 < n && s[i + 1] in {0x30, 0x31} {
      assert t[1..][0] == s[i + 1] && t[1..][1..] == s[i + 2..n] && t == [0x7E, s[i + 1]] + s[i + 2..n];
      assert Escaped(t[1..]) == Escaped(s[i + 2..n]);
      UnescapeTilde(s[i + 1], s[i + 2..n]);
    }
  }

  // ---------- One pass of the loop, on a fragment ----------

  lemma TripletInside(s: bytes, i: nat, n: nat)
    requires i < n <= |s| && s[i] == 0x25 && (n == |s| || s[n] == 0x2F) && forall k :: i <= k < n ==> s[k] != 0x2F
    ensures Triplet(s[i..n]) <==> Triplet(s[i..])
    ensures Triplet(s[i..n]) ==> i + 3 <= n && TripletValue(s[i..n]) == TripletValue(s[i..])
  {
    if Triplet(s[i..]) {
      assert HexValue(s[i + 1]) >= 0 && HexValue(s[i + 2]) >= 0;
      assert i + 1 != n && i + 2 != n;
      assert s[i..n][1] == s[i + 1] && s[i..n][2] == s[i + 2];
    }
  }

  /** PercentDecodeStream yields the front of the decoded text; behind it stands no byte of a longer character. */
  lemma {:induction false} TripletsDecoded(s: bytes, i: nat, n: nat)
    requires i <= n <= |s| && (n == |s| || s[n] == 0x2F) && forall k :: i <= k < n ==> s[k] != 0x2F
    ensures var u, d := Triplets(s, i), PercentDecoded(s[i..n]);
      && i + 3 * |u| <= n && u <= d
      && (Clean(s[i..n]) && |u| < |d| ==> d[|u|] < 0x80)
    decreases n - i
  {
    var t := s[i..n];
    if i < n && s[i] == 0x25 {
      TripletInside(s, i, n);
      if Triplet(t) {
        assert t[3..] == s[i + 3..n];
        assert s[i..][1] == s[i + 1] && s[i..][2] == s[i + 2];
        TripletsDecoded(s, i + 3, n);
      }
    } else if i < n {
      assert t[0] == s[i] && !Triplet(t);
    }
  }

  lemma CharPrefix(u: bytes, d: bytes)
    requires u <= d && u != [] && (|u| < |d| ==> d[|u|] < 0x80)
    ensures Unicode.CharLength(u, 0) == Unicode.CharLength(d, 0)
  {
    assert At(d, 1) == At(u, 1) || (|u| == 1 < |d| && d[1] < 0x80);
    assert At(d, 2) == At(u, 2) || |u| <= 2;
    assert At(d, 3) == At(u, 3) || |u| <= 3;
  }

  lemma CharGrows(u: bytes, d: bytes)
    requires u <= d && u != [] && Unicode.CharLength(u, 0) > 0
    ensures Unicode.CharLength(u, 0) == Unicode.CharLength(d, 0)
  {
  }

  lemma WellFormedPeel(d: bytes, n: nat)
    requires d != [] && n == Unicode.CharLength(d, 0)
    ensures Unicode.WellFormed(d) <==> n > 0 && Unicode.WellFormed(d[n..])
  {
    hide Unicode.CharLength;
    if n > 0 { WellFormedSuffix(d, n, 0); }
  }

  /** Triplets of bytes above 0x7F in front. */
  predicate HighTriplets(t: bytes, m: nat) {
    m == 0 || (Triplet(t) && TripletValue(t) >= 0x80 && HighTriplets(t[3..], m - 1))
  }

  lemma {:induction false} PeelTriplets(t: bytes, m: nat)
    requires HighTriplets(t, m)
    ensures 3 * m <= |t|
    ensures var d := PercentDecoded(t);
      && m <= |d| && d[m..] == PercentDecoded(t[3 * m..]) && forall k :: 0 <= k < m ==> d[k] >= 0x80
    ensures Clean(t) == Clean(t[3 * m..]) && FragmentEscaped(t) == FragmentEscaped(t[3 * m..])
    decreases m
  {
    if m == 0 {
      assert t[0..] == t && PercentDecoded(t)[0..] == PercentDecoded(t);
    } else {
      PeelTriplets(t[3..], m - 1);
      assert t[3..][3 * (m - 1)..] == t[3 * m..];
      assert PercentDecoded(t)[m..] == PercentDecoded(t[3..])[m - 1..];
      assert NeedPercentEncode(t[0]);
    }
  }

  lemma {:induction false} HighOf(s: bytes, i: nat, n: nat, m: nat)
    requires i <= n <= |s| && (n == |s| || s[n] == 0x2F) && forall k :: i <= k < n ==> s[k] != 0x2F
    requires m <= |Triplets(s, i)| && forall k :: 0 <= k < m ==> Triplets(s, i)[k] >= 0x80
    ensures HighTriplets(s[i..n], m)
    decreases m
  {
    if m > 0 {
      assert Triplet(s[i..]);
      assert i < n;
      TripletInside(s, i, n);
      assert s[i..n][3..] == s[i + 3..n];
      var u := Triplets(s, i);
      assert u[1..] == Triplets(s, i + 3);
      assert u[0] == TripletValue(s[i..n]);
      var rest := u[1..];
      forall k | 0 <= k < m - 1 ensures rest[k] >= 0x80 { assert u[k + 1] == rest[k]; }
      HighOf(s, i + 3, n, m - 1);
    }
  }

  lemma {:induction false} UnescapeHigh(u: bytes, rest: bytes)
    requires forall k :: 0 <= k < |u| ==> u[k] >= 0x80
    ensures Unescape(u + rest) == u + Unescape(rest)
  {
    hide Unescape;
    if u == [] {
      assert u + rest == rest;
    } else {
      UnescapeHigh(u[1..], rest);
      UnescapePlain(u[0], u[1..] + rest);
      assert u + rest == [u[0]] + (u[1..] + rest);
      assert u + Unescape(rest) == [u[0]] + (u[1..] + Unescape(rest));
    }
  }

  /** A character of several bytes. */
  lemma PeelHigh(s: bytes, i: nat, n: nat, m: nat)
    requires i < n <= |s| && (n == |s| || s[n] == 0x2F) && forall k :: i <= k < n ==> s[k] != 0x2F
    requires var u := Triplets(s, i); u != [] && m == Unicode.CharLength(u, 0) && m > 1
    ensures i + 3 * m <= n && Good(s[i..n], true) == Good(s[i + 3 * m..n], true)
    ensures NameOf(s[i..n], true) == Triplets(s, i)[..m] + NameOf(s[i + 3 * m..n], true)
  {
    var t, u := s[i..n], Triplets(s, i);
    CharBytes(u);
    HighOf(s, i, n, m);
    hide Triplets, PercentDecoded, Unicode.CharLength, Clean, FragmentEscaped, Unicode.WellFormed, Unescape;
    TripletsDecoded(s, i, n);
    PeelTriplets(t, m);
    var d := PercentDecoded(t);
    assert t[3 * m..] == s[i + 3 * m..n];
    CharGrows(u, d);
    WellFormedPeel(d, m);
    assert d[..m] == u[..m] && d == u[..m] + d[m..];
    UnescapeHigh(u[..m], d[m..]);
  }

  /** The bytes of a character of more than one. */
  lemma CharBytes(u: bytes)
    requires u != [] && Unicode.CharLength(u, 0) > 1
    ensures Unicode.CharLength(u, 0) <= |u| && forall k :: 0 <= k < Unicode.CharLength(u, 0) ==> u[k] >= 0x80
  {
  }

  /** One triplet of a byte below 0x80. */
  lemma PeelOne(t: bytes)
    requires Triplet(t) && TripletValue(t) < 0x80
    ensures PercentDecoded(t) == [TripletValue(t)] + PercentDecoded(t[3..])
    ensures Clean(t) == Clean(t[3..])
    ensures Unicode.WellFormed(PercentDecoded(t)) == Unicode.WellFormed(PercentDecoded(t[3..]))
    ensures FragmentEscaped(t)
       <==> FragmentEscaped(t[3..]) && (TripletValue(t) == 0x7E ==> |t| > 3 && t[3] in {0x30, 0x31})
  {
    assert NeedPercentEncode(t[0]);
    var d := PercentDecoded(t);
    assert Unicode.CharLength(d, 0) == 1 && d[1..] == PercentDecoded(t[3..]);
    WellFormedPeel(d, 1);
  }

  /** One unreserved character as it is. */
  lemma PeelUnreserved(t: bytes)
    requires t != [] && !NeedPercentEncode(t[0])
    ensures PercentDecoded(t) == [t[0]] + PercentDecoded(t[1..])
    ensures Clean(t) == Clean(t[1..])
    ensures Unicode.WellFormed(PercentDecoded(t)) == Unicode.WellFormed(PercentDecoded(t[1..]))
    ensures FragmentEscaped(t) <==> FragmentEscaped(t[1..]) && (t[0] == 0x7E ==> |t| > 1 && t[1] in {0x30, 0x31})
  {
    assert !Triplet(t);
    var d := PercentDecoded(t);
    assert Unicode.CharLength(d, 0) == 1 && d[1..] == PercentDecoded(t[1..]);
    WellFormedPeel(d, 1);
  }

  /** The first `m` bytes of a text stand for `c`. */
  predicate StandsFor(t: bytes, m: nat, c: byte) {
    && m <= |t| && c < 0x80
    && PercentDecoded(t) == [c] + PercentDecoded(t[m..]) && Clean(t) == Clean(t[m..])
    && Unicode.WellFormed(PercentDecoded(t)) == Unicode.WellFormed(PercentDecoded(t[m..]))
    && (FragmentEscaped(t) <==> FragmentEscaped(t[m..]) && (c == 0x7E ==> |t| > m && t[m] in {0x30, 0x31}))
  }

  lemma PeelAscii(t: bytes, m: nat, c: byte)
    requires StandsFor(t, m, c)
    ensures c != 0x7E ==> Good(t, true) == Good(t[m..], true) && NameOf(t, true) == [c] + NameOf(t[m..], true)
    ensures c == 0x7E && !(|t| > m && t[m] in {0x30, 0x31}) ==> !Good(t, true)
  {
    hide Clean, PercentDecoded, FragmentEscaped, Unicode.WellFormed, Unescape;
    if c != 0x7E { UnescapePlain(c, PercentDecoded(t[m..])); }
  }

  /** A tilde and the digit behind it. */
  lemma PeelEscape(t: bytes, m: nat)
    requires StandsFor(t, m, 0x7E) && |t| > m && t[m] in {0x30, 0x31}
    ensures Good(t, true) == Good(t[m + 1..], true)
    ensures NameOf(t, true) == [if t[m] == 0x31 then 0x2F else 0x7E] + NameOf(t[m + 1..], true)
  {
    hide Clean, PercentDecoded, FragmentEscaped, Unicode.WellFormed, Unescape;
    var d, rest := t[m], PercentDecoded(t[m + 1..]);
    assert t[m..][0] == d && t[m..][1..] == t[m + 1..];
    PeelUnreserved(t[m..]);
    assert [0x7E] + ([d] + rest) == [0x7E, d] + rest;
    UnescapeTilde(d, rest);
  }

  lemma PeelEncoded(s: bytes, i: nat, n: nat)
    requires i < n <= |s| && s[i] == PERCENT && (n == |s| || s[n] == 0x2F) && forall k :: i <= k < n ==> s[k] != 0x2F
    ensures Peels(s, i, n, true)
  {
    var t, u := s[i..n], Triplets(s, i);
    TripletInside(s, i, n);
    if u == [] {
      assert !Triplet(s[i..]);
      assert !Clean(t) by { assert NeedPercentEncode(t[0]); }
    } else {
      assert u[0] == TripletValue(t);
      PeelRun(s, i, n);
    }
  }

  lemma PeelRun(s: bytes, i: nat, n: nat)
    requires i < n <= |s| && s[i] == PERCENT && (n == |s| || s[n] == 0x2F) && forall k :: i <= k < n ==> s[k] != 0x2F
    requires Triplets(s, i) != [] && Triplet(s[i..n]) && Triplets(s, i)[0] == TripletValue(s[i..n])
    ensures Peels(s, i, n, true)
  {
    hide Triplets, PercentDecoded, Unicode.CharLength, Unicode.Decode, Clean, FragmentEscaped, Unicode.WellFormed,
      Unescape, Triplet, TripletValue, NameOf;
    var t, u := s[i..n], Triplets(s, i);
    Unicode.DecodeIsRfc3629(u, 0);
    var m := Unicode.CharLength(u, 0);
    if m == 0 {
      NoChar(s, i, n);
    } else if m == 1 {
      OneByte(u);
      PeelOne(t);
      TripletLength(t);
      PeelAscii(t, 3, u[0]);
      assert t[3..] == s[i + 3..n];
      if i + 3 < n {
        assert t[3] == s[i + 3] && t[4..] == s[i + 4..n];
        if u[0] == 0x7E && t[3] in {0x30, 0x31} { PeelEscape(t, 3); }
      }
    } else {
      PeelHigh(s, i, n, m);
    }
  }

  lemma TripletLength(t: bytes)
    requires Triplet(t)
    ensures |t| >= 3
  {
  }

  lemma OneByte(u: bytes)
    requires u != [] && Unicode.CharLength(u, 0) == 1
    ensures u[0] < 0x80
  {
  }

  lemma NoChar(s: bytes, i: nat, n: nat)
    requires i < n <= |s| && (n == |s| || s[n] == 0x2F) && forall k :: i <= k < n ==> s[k] != 0x2F
    requires Triplets(s, i) != [] && Unicode.CharLength(Triplets(s, i), 0) == 0
    ensures !Good(s[i..n], true)
  {
    hide Triplets, PercentDecoded, Unicode.CharLength, Clean, FragmentEscaped, Unicode.WellFormed;
    TripletsDecoded(s, i, n);
    if Clean(s[i..n]) {
      var d := PercentDecoded(s[i..n]);
      CharPrefix(Triplets(s, i), d);
      WellFormedPeel(d, 0);
    }
  }

  lemma PeelRaw(s: bytes, i: nat, n: nat)
    requires i < n <= |s| && s[i] != PERCENT && s[i] != 0x2F && (n == |s| || s[n] == 0x2F)
    ensures Peels(s, i, n, true)
  {
    hide PercentDecoded, Unicode.WellFormed, Unescape, Triplets;
    var t := s[i..n];
    if NeedPercentEncode(s[i]) {
      assert !Clean(t);
    } else {
      hide Clean, FragmentEscaped, NameOf, Good;
      PeelUnreserved(t);
      PeelAscii(t, 1, t[0]);
      assert t[1..] == s[i + 1..n];
      if i + 1 < n {
        assert t[1] == s[i + 1] && t[2..] == s[i + 2..n];
        if t[0] == 0x7E && t[1] in {0x30, 0x31} { PeelEscape(t, 1); }
      }
    }
  }

  // ---------- Names, tokens and pointers ----------

  lemma {:induction false} NameExactly(s: bytes, i: nat, fragment: bool)
    requires i <= |s|
    ensures var n := SlashAt(s, i); var r := Name(s, i, fragment);
      && (r.Segment? <==> Good(s[i..n], fragment))
      && (r.Segment? ==> r.next == n && r.name == NameOf(s[i..n], fragment))
    decreases |s| - i
  {
    hide TokenStep, Good, NameOf, SlashAt;
    var n := SlashAt(s, i);
    if i == |s| || s[i] == SLASH {
      SlashHere(s, i);
      assert s[i..i] == [];
      Nothing(fragment);
    } else {
      SlashOn(s, i);
      if !fragment { PeelPlain(s, i, n); } else if s[i] == PERCENT { PeelEncoded(s, i, n); } else { PeelRaw(s, i, n); }
      if TokenStep(s, i, fragment).Stored? {
        var next := TokenStep(s, i, fragment).next;
        NoSlashTaken(s, i, n, fragment);
        SlashFrom(s, i, next);
        NameExactly(s, next, fragment);
      }
    }
  }

  lemma SlashHere(s: bytes, i: nat)
    requires i <= |s| && (i == |s| || s[i] == SLASH)
    ensures SlashAt(s, i) == i
  {
  }

  lemma SlashOn(s: bytes, i: nat)
    requires i < |s| && s[i] != SLASH
    ensures SlashAt(s, i) > i
  {
  }

  lemma {:induction false} SlashFrom(s: bytes, i: nat, k: nat)
    requires i <= |s| && i <= k <= SlashAt(s, i)
    ensures SlashAt(s, k) == SlashAt(s, i)
    decreases k - i
  {
    if i < k { SlashFrom(s, i + 1, k); }
  }

  lemma Nothing(fragment: bool)
    ensures Good([], fragment) && NameOf([], fragment) == []
  {
  }

  /** A pass of the loop does not go over a slash. */
  lemma NoSlashTaken(s: bytes, i: nat, n: nat, fragment: bool)
    requires i < n <= |s| && (n == |s| || s[n] == SLASH) && forall k :: i <= k < n ==> s[k] != 0x2F
    requires TokenStep(s, i, fragment).Stored?
    ensures TokenStep(s, i, fragment).next <= n
  {
    hide Unicode.Decode, PercentDecoded, Clean;
    if fragment && s[i] == PERCENT { TripletsDecoded(s, i, n); }
  }

  lemma {:induction false} TokensExactly(s: bytes, i: nat, fragment: bool)
    requires i <= |s| && (i == |s| || s[i] == SLASH)
    ensures var rs := References(s, i); var r := Tokens(s, i, fragment);
      && (r.Ok? <==> AllGood(rs, fragment))
      && (r.Ok? ==> Names(r.tokens) == NamesOf(rs, fragment))
    decreases |s| - i
  {
    hide Name, Good, NameOf, IndexOf, SlashAt, AllGood, Names, NamesOf;
    if i == |s| {
      NoReferences(fragment);
    } else {
      var n := SlashAt(s, i + 1);
      NameExactly(s, i + 1, fragment);
      TokensExactly(s, n, fragment);
      var t, rest := s[i + 1..n], References(s, n);
      assert References(s, i) == [t] + rest;
      GoodMore(t, rest, fragment);
      if Tokens(s, i, fragment).Ok? { FirstName(Tokens(s, i, fragment).tokens, t, rest, fragment); }
    }
  }

  lemma NoReferences(fragment: bool)
    ensures AllGood([], fragment) && Names([]) == NamesOf([], fragment)
  {
  }

  lemma FirstName(ts: seq<Token>, t: bytes, rest: seq<bytes>, fragment: bool)
    requires ts != [] && ts[0].name == NameOf(t, fragment) && Names(ts[1..]) == NamesOf(rest, fragment)
    ensures Names(ts) == NamesOf([t] + rest, fragment)
  {
    hide NameOf;
    assert |ts[1..]| == |rest|;
    forall k | 0 <= k < |ts| ensures ts[k].name == NameOf(([t] + rest)[k], fragment) {
      if k > 0 { assert Names(ts[1..])[k - 1] == ts[k].name; }
    }
  }

  lemma GoodMore(t: bytes, rest: seq<bytes>, fragment: bool)
    ensures AllGood([t] + rest, fragment) <==> Good(t, fragment) && AllGood(rest, fragment)
  {
    hide Good;
    var all := [t] + rest;
    if AllGood(all, fragment) {
      assert Good(all[0], fragment);
      forall k | 0 <= k < |rest| ensures Good(rest[k], fragment) { assert Good(all[k + 1], fragment); }
    }
  }

  /**
   Parse accepts exactly the pointers of RFC 6901, in the string form and as a fragment, and its tokens have the names
   that the reference tokens stand for.
   */
  lemma ParseExactly(s: bytes)
    ensures var fragment := At(s, 0) == 0x23; var i := if fragment then 1 else 0; var r := Parse(s);
      && (r.Ok? <==> (i == |s| || s[i] == 0x2F) && AllGood(References(s, i), fragment))
      && (r.Ok? ==> Names(r.tokens) == NamesOf(References(s, i), fragment))
  {
    hide Tokens, References, Good, NameOf;
    var fragment := At(s, 0) == HASH;
    var i := if fragment then 1 else 0;
    if i == |s| || s[i] == SLASH { TokensExactly(s, i, fragment); }
  }

  // ---------- Against section 6: decoding first, and then looking for slashes ----------

  /** Some triplet stands for a slash. */
  predicate EncodedSlash(t: bytes) {
    && t != []
    && if Triplet(t) then TripletValue(t) == 0x2F || EncodedSlash(t[3..]) else EncodedSlash(t[1..])
  }

  predicate HasSlash(t: bytes) { exists k :: 0 <= k < |t| && t[k] == 0x2F }

  lemma SlashMore(c: byte, rest: bytes)
    ensures HasSlash([c] + rest) <==> c == 0x2F || HasSlash(rest)
  {
    var t := [c] + rest;
    if HasSlash(rest) {
      var k :| 0 <= k < |rest| && rest[k] == 0x2F;
      assert t[k + 1] == 0x2F;
    }
    assert c == 0x2F ==> t[0] == 0x2F;
  }

  lemma {:induction false} DecodedSlash(t: bytes)
    requires Clean(t)
    ensures EncodedSlash(t) <==> HasSlash(PercentDecoded(t))
    decreases |t|
  {
    hide HasSlash, NeedPercentEncode;
    if t == [] {
      NoSlash();
    } else if Triplet(t) {
      CleanTriplet(t);
      DecodedSlash(t[3..]);
      SlashMore(TripletValue(t), PercentDecoded(t[3..]));
    } else {
      SlashReserved(t[0]);
      DecodedSlash(t[1..]);
      SlashMore(t[0], PercentDecoded(t[1..]));
    }
  }

  lemma NoSlash()
    ensures !HasSlash([])
  {
  }

  lemma SlashReserved(c: byte)
    ensures c in {SLASH, PERCENT} ==> NeedPercentEncode(c)
  {
  }

  lemma CleanTriplet(t: bytes)
    requires Triplet(t)
    ensures Clean(t) == Clean(t[3..])
  {
    SlashReserved(t[0]);
  }

  /** The first piece of a text: a triplet or one byte. */
  function PieceLength(t: bytes): nat { if Triplet(t) then 3 else 1 }

  function PieceValue(t: bytes): byte
    requires t != []
  {
    if Triplet(t) then TripletValue(t) else t[0]
  }

  lemma FirstPiece(t: bytes)
    requires t != []
    ensures PieceLength(t) <= |t|
    ensures PercentDecoded(t) == [PieceValue(t)] + PercentDecoded(t[PieceLength(t)..])
    ensures EncodedSlash(t) <==> (Triplet(t) && TripletValue(t) == 0x2F) || EncodedSlash(t[PieceLength(t)..])
    ensures Clean(t) ==> Clean(t[PieceLength(t)..]) && (Triplet(t) || t[0] != PERCENT)
  {
    hide NeedPercentEncode;
    SlashReserved(t[0]);
    if Triplet(t) { CleanTriplet(t); }
  }

  lemma SamePiece(a: bytes, b: bytes)
    requires a != [] && (Triplet(a) || a[0] != PERCENT)
    ensures Triplet(a + b) == Triplet(a) && PieceValue(a + b) == PieceValue(a)
    ensures Triplet(a) ==> TripletValue(a + b) == TripletValue(a)
    ensures PieceLength(a) <= |a| && (a + b)[PieceLength(a)..] == a[PieceLength(a)..] + b
  {
    assert Triplet(a) ==> (a + b)[0] == a[0] && (a + b)[1] == a[1] && (a + b)[2] == a[2];
  }

  lemma {:induction false} DecodedConcat(a: bytes, b: bytes)
    requires Clean(a)
    ensures PercentDecoded(a + b) == PercentDecoded(a) + PercentDecoded(b)
    ensures EncodedSlash(a + b) == (EncodedSlash(a) || EncodedSlash(b))
    decreases |a|
  {
    hide Clean, PercentDecoded, EncodedSlash, Triplet, TripletValue, PieceValue;
    if a == [] {
      assert a + b == b;
      NothingDecoded();
    } else {
      FirstPiece(a);
      SamePiece(a, b);
      FirstPiece(a + b);
      DecodedConcat(a[PieceLength(a)..], b);
    }
  }

  lemma {:induction false} EscapedConcat(a: bytes, b: bytes)
    requires Escaped(a) && Escaped(b)
    ensures Escaped(a + b)
    decreases |a|
  {
    if a == [] {
      assert a + b == b;
    } else {
      EscapedConcat(a[1..], b);
      FirstOf(a, b);
    }
  }

  lemma FirstOf(a: bytes, b: bytes)
    requires a != []
    ensures (a + b)[0] == a[0] && (a + b)[1..] == a[1..] + b
  {
  }

  lemma {:induction false} EscapedDecoded(t: bytes)
    requires Clean(t) && FragmentEscaped(t)
    ensures Escaped(PercentDecoded(t))
    decreases |t|
  {
    hide NeedPercentEncode;
    if t != [] {
      var n, c := if Triplet(t) then 3 else 1, if Triplet(t) then TripletValue(t) else t[0];
      if Triplet(t) { CleanTriplet(t); } else { SlashReserved(t[0]); }
      var rest := PercentDecoded(t[n..]);
      EscapedDecoded(t[n..]);
      assert PercentDecoded(t) == [c] + rest && ([c] + rest)[1..] == rest;
      if c == 0x7E {
        assert t[n] in {0x30, 0x31} && !Triplet(t[n..]);
        assert rest[0] == t[n];
      }
    }
  }

  lemma {:induction false} EscapedSlice(x: bytes, i: nat, n: nat)
    requires i <= n <= |x| && (n == |x| || x[n] == 0x2F) && Escaped(x[i..])
    ensures Escaped(x[i..n]) && Escaped(x[n..])
    decreases n - i
  {
    if i < n {
      assert x[i..][1..] == x[i + 1..] && x[i..n][1..] == x[i + 1..n];
      EscapedSlice(x, i + 1, n);
    } else {
      assert x[i..n] == [];
    }
  }

  lemma {:induction false} EscapedReferences(x: bytes, i: nat)
    requires i <= |x| && Escaped(x[i..]) && (i == |x| || x[i] == 0x2F)
    ensures AllGood(References(x, i), false)
    decreases |x| - i
  {
    hide Escaped, SlashAt, AllGood;
    if i == |x| {
      NoReferences(false);
    } else {
      var n := SlashAt(x, i + 1);
      EscapedSlash(x, i);
      EscapedSlice(x, i + 1, n);
      EscapedReferences(x, n);
      GoodMore(x[i + 1..n], References(x, n), false);
    }
  }

  lemma EscapedSlash(x: bytes, i: nat)
    requires i < |x| && x[i] == 0x2F
    ensures Escaped(x[i..]) == Escaped(x[i + 1..])
  {
    assert x[i..][1..] == x[i + 1..];
  }

  function SlashCount(x: bytes, i: nat): nat
    requires i <= |x|
    decreases |x| - i
  {
    if i == |x| then 0 else SlashCount(x, i + 1) + if x[i] == 0x2F then 1 else 0
  }

  lemma {:induction false} CountFrom(x: bytes, i: nat, n: nat)
    requires i <= n <= |x|
    ensures SlashCount(x, i) >= SlashCount(x, n)
    ensures SlashCount(x, i) == SlashCount(x, n) <==> forall k :: i <= k < n ==> x[k] != 0x2F
    decreases n - i
  {
    if i < n { CountFrom(x, i + 1, n); }
  }

  lemma {:induction false} ReferencesCount(x: bytes, i: nat)
    requires i <= |x| && (i == |x| || x[i] == 0x2F)
    ensures |References(x, i)| == SlashCount(x, i)
    decreases |x| - i
  {
    hide SlashAt;
    if i < |x| {
      CountFrom(x, i + 1, SlashAt(x, i + 1));
      ReferencesCount(x, SlashAt(x, i + 1));
    }
  }

  lemma {:induction false} SlashIs(x: bytes, i: nat, n: nat)
    requires i <= n <= |x| && (n == |x| || x[n] == 0x2F) && forall k :: i <= k < n ==> x[k] != 0x2F
    ensures SlashAt(x, i) == n
    decreases n - i
  {
    if i < n { SlashIs(x, i + 1, n); }
  }

  /** The fragment from one slash to the next, and what it is decoded to. */
  lemma ReferenceDecoded(f: bytes, i: nat, d: bytes, j: nat) returns (n: nat, m: nat)
    requires i < |f| && f[i] == 0x2F && j <= |d| && d[j..] == PercentDecoded(f[i..])
    requires AllGood(References(f, i), true)
    ensures n == SlashAt(f, i + 1) && i < n <= |f| && (n == |f| || f[n] == 0x2F)
    ensures Good(f[i + 1..n], true) && References(f, i) == [f[i + 1..n]] + References(f, n)
    ensures AllGood(References(f, n), true)
    ensures j < m <= |d| && d[j] == 0x2F && d[j + 1..m] == PercentDecoded(f[i + 1..n])
    ensures d[m..] == PercentDecoded(f[n..]) && (m == |d| || d[m] == 0x2F)
    ensures EncodedSlash(f[i..]) == (EncodedSlash(f[i + 1..n]) || EncodedSlash(f[n..]))
    ensures HasSlash(d[j + 1..m]) == EncodedSlash(f[i + 1..n])
  {
    hide SlashAt, Clean, PercentDecoded, EncodedSlash, FragmentEscaped, Unicode.WellFormed, HasSlash, AllGood;
    n := SlashAt(f, i + 1);
    var r, rest := f[i + 1..n], f[n..];
    GoodMore(r, References(f, n), true);
    assert f[i..] == [SLASH] + (r + rest);
    SlashDecoded(r + rest);
    DecodedConcat(r, rest);
    DecodedSlash(r);
    var u := PercentDecoded(r);
    m := j + 1 + |u|;
    assert d[j..] == [SLASH] + (u + PercentDecoded(rest));
    assert |d[j..]| == |d| - j;
    assert d[j] == d[j..][0];
    Sliced(d, j, 1, 1 + |u|);
    if n < |f| {
      assert rest == [SLASH] + rest[1..];
      SlashDecoded(rest[1..]);
      assert d[m] == d[m..][0];
    } else {
      NothingDecoded();
    }
  }

  lemma Sliced(d: bytes, j: nat, a: nat, b: nat)
    requires j <= |d| && a <= b <= |d[j..]|
    ensures d[j..][a..b] == d[j + a..j + b] && d[j..][b..] == d[j + b..]
  {
  }

  lemma SlashDecoded(t: bytes)
    ensures PercentDecoded([SLASH] + t) == [SLASH] + PercentDecoded(t)
    ensures EncodedSlash([SLASH] + t) == EncodedSlash(t)
  {
    assert ([SLASH] + t)[1..] == t;
  }

  lemma NothingDecoded()
    ensures PercentDecoded([]) == [] && !EncodedSlash([])
  {
  }

  lemma {:induction false} ReferencesDecoded(f: bytes, i: nat, d: bytes, j: nat)
    requires i <= |f| && (i == |f| || f[i] == 0x2F) && j <= |d| && d[j..] == PercentDecoded(f[i..])
    requires AllGood(References(f, i), true)
    ensures j == |d| || d[j] == 0x2F
    ensures Escaped(d[j..])
    ensures SlashCount(f, i) <= SlashCount(d, j)
    ensures EncodedSlash(f[i..]) ==> SlashCount(f, i) < SlashCount(d, j)
    ensures !EncodedSlash(f[i..]) ==> NamesOf(References(f, i), true) == NamesOf(References(d, j), false)
    decreases |f| - i
  {
    hide SlashAt, Good, Clean, PercentDecoded, EncodedSlash, Escaped, AllGood, NamesOf, NameOf, HasSlash;
    if i == |f| {
      assert f[i..] == [];
      NothingDecoded();
      EscapedNothing();
      NoReferences(true);
      NoReferences(false);
      assert Names([]) == NamesOf([], true) && References(d, j) == [];
    } else {
      var n, m := ReferenceDecoded(f, i, d, j);
      var r := f[i + 1..n];
      ReferencesDecoded(f, n, d, m);
      GoodEscaped(r);
      EscapedConcat(d[j + 1..m], d[m..]);
      assert d[j + 1..m] + d[m..] == d[j + 1..];
      EscapedSlash(d, j);
      CountFrom(f, i + 1, n);
      CountFrom(d, j + 1, m);
      SlashIn(d, j + 1, m);
      if !EncodedSlash(f[i..]) {
        SlashIs(d, j + 1, m);
        assert References(d, j) == [d[j + 1..m]] + References(d, m);
        NamesMore(r, References(f, n), d[j + 1..m], References(d, m));
      }
    }
  }

  lemma EscapedNothing()
    ensures Escaped([])
  {
  }

  lemma SlashIn(d: bytes, i: nat, n: nat)
    requires i <= n <= |d|
    ensures HasSlash(d[i..n]) <==> exists k :: i <= k < n && d[k] == 0x2F
  {
    if k :| i <= k < n && d[k] == 0x2F { assert d[i..n][k - i] == 0x2F; }
  }

  lemma GoodEscaped(r: bytes)
    requires Good(r, true)
    ensures Escaped(PercentDecoded(r))
  {
    EscapedDecoded(r);
  }

  lemma NamesMore(r: bytes, rest: seq<bytes>, u: bytes, more: seq<bytes>)
    requires u == PercentDecoded(r) && NamesOf(rest, true) == NamesOf(more, false)
    ensures NamesOf([r] + rest, true) == NamesOf([u] + more, false)
  {
    hide Unescape;
    assert |rest| == |more|;
    forall k | 0 <= k < |rest| + 1 ensures NameOf(([r] + rest)[k], true) == NameOf(([u] + more)[k], false) {
      if k > 0 { assert NamesOf(rest, true)[k - 1] == NamesOf(more, false)[k - 1]; }
    }
  }

  /**
   Section 6 has a fragment decoded first and then read as a string.  What Parse accepts as a fragment is accepted so,
   too, and exactly when no slash is encoded in it, the names are the same.
   */
  lemma FragmentIsDecoded(f: bytes)
    requires Parse([HASH] + f).Ok?
    ensures var d := PercentDecoded(f);
      Parse(d).Ok? && (Names(Parse([HASH] + f).tokens) == Names(Parse(d).tokens) <==> !EncodedSlash(f))
  {
    hide Parse, References, AllGood, NamesOf, Names, Escaped, EncodedSlash, PercentDecoded;
    var s, d := [HASH] + f, PercentDecoded(f);
    ParseExactly(s);
    assert s[1..] == f && d[0..] == d;
    ReferencesDecoded(s, 1, d, 0);
    EscapedReferences(d, 0);
    ParseExactly(d);
    ReferencesCount(s, 1);
    ReferencesCount(d, 0);
    NamesLength(References(s, 1), true);
    NamesLength(References(d, 0), false);
  }

  lemma NamesLength(rs: seq<bytes>, fragment: bool)
    ensures |NamesOf(rs, fragment)| == |rs|
  {
  }

  /** But not the other way round: a tilde whose digit is encoded is refused in a fragment. */
  lemma EncodedDigitRefused()
    ensures var f := [0x2F, 0x7E, 0x25, 0x33, 0x30];
      !Parse([HASH] + f).Ok? && Parse(PercentDecoded(f)).Ok? && Names(Parse(PercentDecoded(f)).tokens) == [[0x7E]]
  {
    var f: bytes := [0x2F, 0x7E, 0x25, 0x33, 0x30];
    var s := [HASH] + f;
    assert s[2] == TILDE && s[3] == PERCENT;
    assert TokenStep(s, 2, true) == Wrong(InvalidEscape, 3);
    assert Name(s, 2, true) == Bad(InvalidEscape, 3);
    var d: bytes := [0x2F, 0x7E, 0x30];
    assert f[1..] == [0x7E, 0x25, 0x33, 0x30] && f[1..][1..] == [0x25, 0x33, 0x30] && f[1..][1..][3..] == [];
    assert PercentDecoded(f[1..][1..]) == [0x30];
    assert PercentDecoded(f) == d;
    assert TokenStep(d, 1, false) == Stored(3, [TILDE], false);
    assert Name(d, 3, false) == Segment(3, [], true);
    assert Name(d, 1, false).name == [TILDE] && Name(d, 1, false).next == 3;
    assert Tokens(d, 3, false) == Ok([]);
  }
}
