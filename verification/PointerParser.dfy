/** GenericPointer::Parse as the loops over the source that fill the token array and the name buffer. */
module PointerParser {
  import opened Bytes
  import opened Characters
  import opened Pointer
  import opened Wrappers
  import Unicode

  /** How many '/' the source has from a position on. */
  function Solidi(s: bytes, i: nat): nat
    decreases |s| - i
  {
    if i >= |s| then 0 else (if s[i] == SLASH then 1 else 0) + Solidi(s, i + 1)
  }

  lemma {:induction false} NoSolidus(s: bytes, i: nat, j: nat)
    requires i <= j <= |s| && forall k :: i <= k < j ==> s[k] != SLASH
    ensures Solidi(s, i) == Solidi(s, j)
    decreases j - i
  {
    if i < j { NoSolidus(s, i + 1, j); }
  }

  lemma {:induction false} TripletsClear(s: bytes, i: nat, n: nat)
    requires i <= |s| && n <= |Triplets(s, i)|
    ensures i + 3 * n <= |s| && forall k :: i <= k < i + 3 * n ==> s[k] != SLASH
    decreases n
  {
    TripletsFit(s, i);
    if n > 0 { TripletsClear(s, i + 3, n - 1); }
  }

  lemma StepClear(s: bytes, i: nat, fragment: bool)
    requires i < |s| && s[i] != SLASH && TokenStep(s, i, fragment).Stored?
    ensures forall k :: i <= k < TokenStep(s, i, fragment).next ==> s[k] != SLASH
  {
    if fragment && s[i] == PERCENT {
      TripletsClear(s, i, Unicode.Decode(Triplets(s, i), 0).next);
    }
  }

  lemma {:induction false} NameClear(s: bytes, i: nat, fragment: bool)
    requires i <= |s| && Name(s, i, fragment).Segment?
    ensures Solidi(s, i) == Solidi(s, Name(s, i, fragment).next)
    decreases |s| - i
  {
    hide TokenStep;
    if i < |s| && s[i] != SLASH {
      var next := TokenStep(s, i, fragment).next;
      StepClear(s, i, fragment);
      NoSolidus(s, i, next);
      NameClear(s, next, fragment);
    }
  }

  lemma {:induction false} TokensCounted(s: bytes, i: nat, fragment: bool)
    requires i <= |s| && (i == |s| || s[i] == SLASH) && Tokens(s, i, fragment).Ok?
    ensures |Tokens(s, i, fragment).tokens| == Solidi(s, i)
    decreases |s| - i
  {
    hide Name, IndexOf;
    if i < |s| {
      NameClear(s, i + 1, fragment);
      TokensCounted(s, Name(s, i + 1, fragment).next, fragment);
    }
  }

  /** Room that the names take in the buffer, with a terminator each. */
  function Room(ts: seq<Token>): nat {
    if ts == [] then 0 else |ts[0].name| + 1 + Room(ts[1..])
  }

  lemma {:induction false} TokensRoom(s: bytes, i: nat, fragment: bool)
    requires i <= |s| && (i == |s| || s[i] == SLASH) && Tokens(s, i, fragment).Ok?
    ensures Room(Tokens(s, i, fragment).tokens) <= |s| - i
    decreases |s| - i
  {
    hide Name, IndexOf;
    if i < |s| {
      var r := Name(s, i + 1, fragment);
      TokensRoom(s, r.next, fragment);
      var ts := Tokens(s, i, fragment).tokens;
      assert ts[0].name == r.name && ts[1..] == Tokens(s, r.next, fragment).tokens;
    }
  }

  /** One token for every '/', and names that fit in as many code units as the source has. */
  lemma ParseAllocation(s: bytes)
    requires Parse(s).Ok?
    ensures |Parse(s).tokens| == Solidi(s, 0) && Room(Parse(s).tokens) <= |s|
  {
    var i := if At(s, 0) == HASH then 1 else 0;
    TokensCounted(s, i, At(s, 0) == HASH);
    TokensRoom(s, i, At(s, 0) == HASH);
  }

  // ---------- Indices ----------

  /** The number that the first `k` digits of a name write. */
  function Prefix(name: bytes, k: nat): nat
    requires AllDigits(name) && k <= |name|
  {
    if k == 0 then 0 else Prefix(name, k - 1) * 10 + (name[k - 1] - ZERO)
  }

  /** The number that a name of digits writes. */
  function Decimal(name: bytes): nat
    requires AllDigits(name)
  {
    Prefix(name, |name|)
  }

  /** A name that section 4 of RFC 6901 takes for an array index. */
  predicate Canonical(name: bytes) { name != [] && AllDigits(name) && (|name| > 1 ==> name[0] != ZERO) }

  /** From `j` digits on, the numbers that successive prefixes write never drop modulo 2^32. */
  predicate Rises(name: bytes, j: nat)
    requires AllDigits(name)
  {
    forall k :: j <= k < |name| ==> Prefix(name, k) % SIZE_LIMIT <= Prefix(name, k + 1) % SIZE_LIMIT
  }

  lemma {:induction false} PrefixGrows(name: bytes, j: nat, k: nat)
    requires AllDigits(name) && j <= k <= |name|
    ensures Prefix(name, j) <= Prefix(name, k)
    decreases k - j
  {
    if j < k { PrefixGrows(name, j, k - 1); }
  }

  lemma NextResidue(n: nat, d: nat)
    requires d < 10
    ensures (n % SIZE_LIMIT * 10 + d % SIZE_LIMIT) % SIZE_LIMIT == (n * 10 + d) % SIZE_LIMIT
  {
    assert n * 10 + d == (n % SIZE_LIMIT * 10 + d) + (n / SIZE_LIMIT * 10) * SIZE_LIMIT;
  }

  /** The conversion loop goes on exactly as long as the residues rise, and ends in the residue of the number. */
  lemma {:induction false} IndexRises(name: bytes, j: nat)
    requires AllDigits(name) && j <= |name|
    ensures IndexFrom(name, j, Prefix(name, j) % SIZE_LIMIT)
         == if Rises(name, j) then Some(Decimal(name) % SIZE_LIMIT) else None
    decreases |name| - j
  {
    if j < |name| {
      NextResidue(Prefix(name, j), name[j] - ZERO);
      IndexRises(name, j + 1);
    }
  }

  /**
   A name that is not in canonical form has no index.  The index of one that is, is the number that it writes, modulo
   2^32, unless a prefix drops modulo 2^32, which is what the overflow check catches.  It is that number, and not the
   mark for no index, exactly when the number is below the mark, 2^32 - 1.
   */
  lemma IndexExact(name: bytes)
    ensures !Canonical(name) ==> IndexOf(name, AllDigits(name)) == INVALID_INDEX
    ensures Canonical(name) ==>
              IndexOf(name, true) == if Rises(name, 0) then Decimal(name) % 0x1_0000_0000 else 0xFFFF_FFFF
    ensures Canonical(name) ==>
              (IndexOf(name, true) == Decimal(name) != INVALID_INDEX <==> Decimal(name) < INVALID_INDEX)
  {
    hide Prefix, Rises, IndexFrom;
    if Canonical(name) {
      IndexRises(name, 0);
      NoDigits(name);
      if Decimal(name) < SIZE_LIMIT { SmallRises(name); }
    }
  }

  lemma NoDigits(name: bytes)
    requires AllDigits(name)
    ensures Prefix(name, 0) == 0
  {
  }

  /** Below 2^32 the residues are the numbers themselves, and longer prefixes write larger numbers. */
  lemma SmallRises(name: bytes)
    requires AllDigits(name) && Decimal(name) < SIZE_LIMIT
    ensures Rises(name, 0)
  {
    hide Prefix;
    forall k | 0 <= k < |name| ensures Prefix(name, k) % SIZE_LIMIT <= Prefix(name, k + 1) % SIZE_LIMIT {
      PrefixGrows(name, k, k + 1);
      PrefixGrows(name, k + 1, |name|);
      SmallResidue(Prefix(name, k));
      SmallResidue(Prefix(name, k + 1));
    }
  }

  lemma SmallResidue(n: nat)
    requires n < SIZE_LIMIT
    ensures n % SIZE_LIMIT == n
  {
  }

  /** The overflow check misses some larger numbers: 6000000000 becomes the index 1705032704. */
  lemma OverflowMissed()
    ensures var name := [0x36, ZERO, ZERO, ZERO, ZERO, ZERO, ZERO, ZERO, ZERO, ZERO];
      Canonical(name) && IndexOf(name, true) == 1705032704
  {
    var name: bytes := [0x36, ZERO, ZERO, ZERO, ZERO, ZERO, ZERO, ZERO, ZERO, ZERO];
    assert IndexFrom(name, 10, 1705032704) == Some(1705032704);
    assert IndexFrom(name, 9, 600000000) == Some(1705032704);
    assert IndexFrom(name, 8, 60000000) == Some(1705032704);
    assert IndexFrom(name, 7, 6000000) == Some(1705032704);
    assert IndexFrom(name, 6, 600000) == Some(1705032704);
    assert IndexFrom(name, 5, 60000) == Some(1705032704);
    assert IndexFrom(name, 4, 6000) == Some(1705032704);
    assert IndexFrom(name, 3, 600) == Some(1705032704);
    assert IndexFrom(name, 2, 60) == Some(1705032704);
    assert IndexFrom(name, 1, 6) == Some(1705032704);
  }

  // ---------- The loops ----------

  /** A token whose name is a stretch of the name buffer. */
  datatype Slice = Slice(start: nat, length: nat, index: nat)

  method CountSolidi(s: bytes) returns (n: nat)
    ensures n == Solidi(s, 0)
  {
    n := 0;
    var k := 0;
    while k < |s|
      invariant 0 <= k <= |s|
      invariant n + Solidi(s, k) == Solidi(s, 0)
    {
      if s[k] == SLASH { n := n + 1; }
      k := k + 1;
    }
  }

  method Convert(name: bytes, digits: bool) returns (index: nat)
    ensures index == IndexOf(name, digits)
  {
    if !digits || |name| == 0 || (|name| > 1 && name[0] == ZERO) { return INVALID_INDEX; }
    index := 0;
    var j := 0;
    while j < |name|
      invariant 0 <= j <= |name|
      invariant IndexFrom(name, j, index) == IndexFrom(name, 0, 0)
    {
      var m: nat := (index * 10 + (name[j] - ZERO) % SIZE_LIMIT) % SIZE_LIMIT;
      if m < index { return INVALID_INDEX; }
      index := m;
      j := j + 1;
    }
  }

  /** Writes some code units into the buffer from a position on. */
  method PutUnits(a: array<byte>, name: nat, u: bytes)
    requires name + |u| <= a.Length
    modifies a
    ensures a[..] == old(a[..name]) + u + old(a[name + |u|..])
  {
    var k := 0;
    while k < |u|
      invariant 0 <= k <= |u|
      invariant a[..] == old(a[..name]) + u[..k] + old(a[name + k..])
    {
      a[name + k] := u[k];
      k := k + 1;
      assert u[..k] == u[..k - 1] + [u[k - 1]];
    }
    assert u[..k] == u;
  }

  datatype Failure = Failure(code: ErrorCode, offset: nat)

  /** The escape after '~', or the character itself, and its place in the buffer. */
  method StoreUnit(s: bytes, j: nat, c: byte, a: array<byte>, name: nat)
    returns (next: nat, digit: bool, failure: Option<Failure>)
    requires name < a.Length
    modifies a
    ensures a[..name] == old(a[..name])
    ensures match Unescaped(s, j, c)
            case Wrong(code, offset) => failure == Some(Failure(code, offset))
            case Stored(n, units, d) => failure == None && next == n && digit == d && units == [a[name]]
  {
    var unit := c;
    next, failure := j, None;
    if c == TILDE {
      if j < |s| && s[j] == ZERO {
        unit := TILDE;
      } else if j < |s| && s[j] == ONE {
        unit := SLASH;
      } else {
        return j, false, Some(Failure(InvalidEscape, j));
      }
      next := j + 1;
    }
    digit := IsDigit(unit);
    a[name] := unit;
  }

  /** Validate from the percent-decoded source into the buffer: it writes what it takes, even when it fails. */
  method DecodePercent(s: bytes, i: nat, a: array<byte>, name: nat) returns (ok: bool, taken: nat)
    requires i < |s| == a.Length && name < i
    modifies a
    ensures a[..name] == old(a[..name])
    ensures var t := Triplets(s, i);
            && ok == (Unicode.Decode(t, 0).ok && Unicode.Decode(t, 0).next <= |t|)
            && (ok ==>
                  && taken == Unicode.Decode(t, 0).next && name + taken <= a.Length
                  && a[name..name + taken] == t[..taken])
  {
    hide Unicode.Decode, Triplets;
    var t := Triplets(s, i);
    TripletsFit(s, i);
    if t == [] {
      NothingTaken();
      a[name] := NUL;
      return false, 0;
    }
    var valid, next, copied := Unicode.Validate(t, 0);
    PutUnits(a, name, copied);
    ok, taken := valid && next <= |t|, next;
    assert a[..name] == old(a[..name]);
    if ok {
      assert a[name..name + taken] == copied;
      forall k | 0 <= k < taken ensures copied[k] == t[k] { assert copied[k] == At(t, 0 + k); }
    }
  }

  lemma NothingTaken()
    ensures Unicode.Decode([], 0).next == 1
  {
  }

  /** One pass of the loop over a token. */
  method ParseUnit(s: bytes, i: nat, fragment: bool, a: array<byte>, name: nat)
    returns (next: nat, name': nat, digit: bool, failure: Option<Failure>)
    requires i < |s| == a.Length && name < i
    modifies a
    ensures a[..name] == old(a[..name])
    ensures match TokenStep(s, i, fragment)
            case Wrong(code, offset) => failure == Some(Failure(code, offset))
            case Stored(n, units, d) =>
              && failure == None && next == n && digit == d
              && name' == name + |units| <= a.Length && a[name..name'] == units
  {
    hide Unicode.Decode, Triplets, Unescaped;
    name' := name + 1;
    if fragment && s[i] == PERCENT {
      TripletsFit(s, i);
      var ok, taken := DecodePercent(s, i, a, name);
      if !ok { return i, name, false, Some(Failure(InvalidPercentEncoding, i)); }
      if taken != 1 { return i + 3 * taken, name + taken, false, None; }
      assert a[name] == a[name..name + 1][0] == Triplets(s, i)[0];
      next, digit, failure := StoreUnit(s, i + 3, a[name], a, name);
    } else if fragment && NeedPercentEncode(s[i]) {
      return i, name, false, Some(Failure(CharacterMustPercentEncode, i));
    } else {
      next, digit, failure := StoreUnit(s, i + 1, s[i], a, name);
    }
  }

  /** A token of which some code units have been read. */
  function Joined(read: bytes, digits: bool, r: Segment): Segment {
    match r
    case Bad(code, offset) => r
    case Segment(end, rest, d) => Segment(end, read + rest, digits && d)
  }

  lemma JoinedStep(s: bytes, i: nat, fragment: bool, read: bytes, digits: bool)
    requires i < |s| && s[i] != SLASH
    ensures match TokenStep(s, i, fragment)
            case Wrong(code, offset) => Joined(read, digits, Name(s, i, fragment)) == Bad(code, offset)
            case Stored(next, units, digit) =>
              Joined(read, digits, Name(s, i, fragment))
              == Joined(read + units, digits && digit, Name(s, next, fragment))
  {
    hide TokenStep;
    match TokenStep(s, i, fragment)
    case Wrong(code, offset) =>
    case Stored(next, units, digit) =>
      match Name(s, next, fragment)
      case Bad(code, offset) =>
      case Segment(end, rest, d) => assert (read + units) + rest == read + (units + rest);
  }

  /** The loop over a token: its name ends up in the buffer, and nothing before it changes. */
  method ParseName(s: bytes, start: nat, fragment: bool, a: array<byte>, base: nat)
    returns (i: nat, name: nat, digits: bool, failure: Option<Failure>)
    requires base < start <= |s| == a.Length
    modifies a
    ensures a[..base] == old(a[..base])
    ensures match Name(s, start, fragment)
            case Bad(code, offset) => failure == Some(Failure(code, offset))
            case Segment(end, text, d) =>
              && failure == None && i == end && digits == d
              && base <= name < i && a[base..name] == text
  {
    hide TokenStep, Name;
    i, name, digits, failure := start, base, true, None;
    JoinedNothing(Name(s, start, fragment), a[base..base]);
    while i < |s| && s[i] != SLASH
      invariant base <= name < i <= |s|
      invariant a[..base] == old(a[..base])
      invariant failure == None && Name(s, start, fragment) == Joined(a[base..name], digits, Name(s, i, fragment))
      decreases |s| - i
    {
      ghost var before := a[..name];
      JoinedStep(s, i, fragment, a[base..name], digits);
      var next, name', digit, failed := ParseUnit(s, i, fragment, a, name);
      Prefixes(a, before, base, name);
      if failed.Some? { return i, name, digits, failed; }
      assert a[base..name'] == before[base..] + a[name..name'];
      i, name, digits := next, name', digits && digit;
    }
    NameEnds(s, i, fragment);
  }

  lemma JoinedNothing(r: Segment, none: bytes)
    requires none == []
    ensures Joined(none, true, r) == r
  {
    match r
    case Bad(code, offset) =>
    case Segment(end, rest, d) => assert none + rest == rest;
  }

  lemma Prefixes(a: array<byte>, before: bytes, base: nat, name: nat)
    requires base <= name <= a.Length && a[..name] == before
    ensures a[..base] == before[..base] && a[base..name] == before[base..]
  {
    assert a[..base] == a[..name][..base];
    assert a[base..name] == a[..name][base..];
  }

  lemma NameEnds(s: bytes, i: nat, fragment: bool)
    requires i <= |s| && (i == |s| || s[i] == SLASH)
    ensures Name(s, i, fragment) == Segment(i, [], true)
  {
  }

  /** A slice of the buffer that holds this token, with its terminator. */
  predicate HoldsToken(buffer: bytes, used: nat, slice: Slice, t: Token) {
    && slice.start + slice.length < used <= |buffer|
    && buffer[slice.start..slice.start + slice.length] == t.name
    && buffer[slice.start + slice.length] == NUL
    && slice.index == t.index
  }

  predicate HoldsTokens(buffer: bytes, used: nat, slices: seq<Slice>, ts: seq<Token>) {
    |slices| == |ts| && forall k :: 0 <= k < |ts| ==> HoldsToken(buffer, used, slices[k], ts[k])
  }

  /** What is written past the used part leaves the tokens as they were. */
  lemma HoldsKept(old_: bytes, new_: bytes, used: nat, used': nat, slices: seq<Slice>, ts: seq<Token>)
    requires HoldsTokens(old_, used, slices, ts) && used <= used' <= |new_| && used <= |old_|
    requires new_[..used] == old_[..used]
    ensures HoldsTokens(new_, used', slices, ts)
  {
    forall k | 0 <= k < |ts| ensures HoldsToken(new_, used', slices[k], ts[k]) {
      var a, b := slices[k].start, slices[k].start + slices[k].length;
      assert HoldsToken(old_, used, slices[k], ts[k]);
      assert new_[a..b] == new_[..used][a..b] == old_[a..b];
      assert new_[b] == new_[..used][b] == old_[..used][b];
    }
  }

  function JoinedTokens(read: seq<Token>, r: Parsed): Parsed {
    match r
    case Err(code, offset) => r
    case Ok(rest) => Ok(read + rest)
  }

  lemma JoinedTokensStep(s: bytes, i: nat, fragment: bool, read: seq<Token>)
    requires i < |s| && s[i] == SLASH
    ensures match Name(s, i + 1, fragment)
            case Bad(code, offset) => JoinedTokens(read, Tokens(s, i, fragment)) == Err(code, offset)
            case Segment(next, name, digits) =>
              (JoinedTokens(read, Tokens(s, i, fragment))
               == JoinedTokens(read + [Token(name, IndexOf(name, digits))], Tokens(s, next, fragment)))
  {
    hide Name, IndexOf;
    match Name(s, i + 1, fragment)
    case Bad(code, offset) =>
    case Segment(next, name, digits) =>
      match Tokens(s, next, fragment)
      case Err(code, offset) =>
      case Ok(rest) =>
        var t := Token(name, IndexOf(name, digits));
        assert (read + [t]) + rest == read + ([t] + rest);
  }

  lemma TokenCount(s: bytes, i: nat, fragment: bool)
    requires i < |s| && s[i] == SLASH && Name(s, i + 1, fragment).Segment?
    ensures Solidi(s, i) == 1 + Solidi(s, Name(s, i + 1, fragment).next)
  {
    hide Name;
    NameClear(s, i + 1, fragment);
  }

  class GenericPointer {
    var tokens: array<Slice>
    var tokenCount: nat
    var nameBuffer: array<byte>
    var used: nat
    var failure: Option<Failure>

    /** The pointer holds these tokens, each name in its own stretch of the buffer. */
    ghost predicate Holds(ts: seq<Token>)
      reads this, tokens, nameBuffer
    {
      && tokenCount <= tokens.Length && used <= nameBuffer.Length
      && HoldsTokens(nameBuffer[..], used, tokens[..tokenCount], ts)
    }

    /** Allocates one token for every '/' and one code unit for every code unit of the source, then parses. */
    constructor (s: bytes)
      ensures match Parse(s)
              case Err(code, offset) => failure == Some(Failure(code, offset))
              case Ok(ts) => failure == None && Holds(ts)
      ensures fresh(tokens) && fresh(nameBuffer) && nameBuffer.Length == |s|
    {
      var n := CountSolidi(s);
      var slots := new Slice[n](_ => Slice(0, 0, 0));
      var buffer := new byte[|s|](_ => NUL);
      tokens, tokenCount, nameBuffer, used, failure := slots, 0, buffer, 0, None;
      new;
      var fragment := At(s, 0) == HASH;
      var i := if fragment then 1 else 0;
      if i != |s| && s[i] != SLASH {
        failure := Some(Failure(TokenMustBeginWithSolidus, i));
        return;
      }
      NoSolidus(s, 0, i);
      Fill(s, i, fragment);
    }

    /** The loop over the tokens. */
    method Fill(s: bytes, from: nat, fragment: bool)
      requires from <= |s| == nameBuffer.Length && (from == |s| || s[from] == SLASH)
      requires tokens.Length == Solidi(s, from) && tokenCount == 0 && used == 0 && failure == None
      modifies this`tokenCount, this`used, this`failure, tokens, nameBuffer
      ensures match Tokens(s, from, fragment)
              case Err(code, offset) => failure == Some(Failure(code, offset))
              case Ok(ts) => failure == None && Holds(ts)
    {
      hide Name, IndexOf, Tokens, HoldsTokens, Solidi;
      var i := from;
      ghost var done: seq<Token> := [];
      NoTokens(nameBuffer[..], tokens[..0], Tokens(s, from, fragment));
      while i < |s|
        invariant from <= i <= |s| && (i == |s| || s[i] == SLASH)
        invariant tokens == old(tokens) && nameBuffer == old(nameBuffer) && failure == None
        invariant used <= i && tokenCount + Solidi(s, i) == tokens.Length
        invariant Holds(done) && Tokens(s, from, fragment) == JoinedTokens(done, Tokens(s, i, fragment))
        decreases |s| - i
      {
        JoinedTokensStep(s, i, fragment, done);
        ghost var before, slices := nameBuffer[..], tokens[..tokenCount];
        var next, name, digits, failed := ParseName(s, i + 1, fragment, nameBuffer, used);
        if failed.Some? {
          failure := failed;
          return;
        }
        TokenCount(s, i, fragment);
        ghost var text := Name(s, i + 1, fragment).name;
        nameBuffer[name] := NUL;
        var index := Convert(nameBuffer[used..name], digits);
        SolidiLeft(s, i);
        var slice := Slice(used, name - used, index);
        assert nameBuffer[..used] == before[..used];
        HoldsKept(before, nameBuffer[..], used, name + 1, slices, done);
        HoldsMore(nameBuffer[..], name + 1, slices, done, slice, Token(text, index));
        tokens[tokenCount] := slice;
        assert tokens[..tokenCount + 1] == slices + [slice];
        done := done + [Token(text, index)];
        used, tokenCount, i := name + 1, tokenCount + 1, next;
      }
      TokensEnd(s, fragment, done);
    }
  }

  lemma SolidiLeft(s: bytes, i: nat)
    requires i < |s| && s[i] == SLASH
    ensures Solidi(s, i) >= 1
  {
  }

  lemma NoTokens(buffer: bytes, slices: seq<Slice>, r: Parsed)
    requires slices == []
    ensures HoldsTokens(buffer, 0, slices, []) && JoinedTokens([], r) == r
  {
    match r
    case Err(code, offset) =>
    case Ok(rest) => assert [] + rest == rest;
  }

  lemma HoldsMore(buffer: bytes, used: nat, slices: seq<Slice>, ts: seq<Token>, slice: Slice, t: Token)
    requires HoldsTokens(buffer, used, slices, ts) && HoldsToken(buffer, used, slice, t)
    ensures HoldsTokens(buffer, used, slices + [slice], ts + [t])
  {
    hide HoldsToken;
  }

  lemma TokensEnd(s: bytes, fragment: bool, done: seq<Token>)
    ensures JoinedTokens(done, Tokens(s, |s|, fragment)) == Ok(done)
  {
    assert done + [] == done;
  }
}
