/**
 AAC sequence headers: BitReader, and the two parsers of the AudioSpecificConfig of section 1.6.2.1 of
 ISO/IEC 14496-3.  Shifts and masks are written as division, multiplication and remainder.
 */
module AudioConfig {
  import opened Bytes

  /** The bit at a position, most significant bit of each byte first; zero behind the end. */
  function BitAt(data: bytes, i: nat): nat { At(data, i / 8) / Power2(7 - i % 8) % 2 }

  /** The number that `n` bits from a position write. */
  function Bits(data: bytes, pos: nat, n: nat): nat {
    if n == 0 then 0 else Bits(data, pos, n - 1) * 2 + BitAt(data, pos + n - 1)
  }

  lemma {:induction false} BitsBound(data: bytes, pos: nat, n: nat)
    ensures Bits(data, pos, n) < Power2(n)
  {
    if n > 0 { BitsBound(data, pos, n - 1); }
  }

  /** Reading a bits and then b bits is reading a + b bits. */
  lemma {:induction false} BitsCompose(data: bytes, pos: nat, a: nat, b: nat)
    ensures Bits(data, pos, a + b) == Bits(data, pos, a) * Power2(b) + Bits(data, pos + a, b)
  {
    hide BitAt;
    if b > 0 {
      BitsCompose(data, pos, a, b - 1);
      Regroup(Bits(data, pos, a), Power2(b - 1), Bits(data, pos + a, b - 1), BitAt(data, pos + a + b - 1));
    }
  }

  lemma Regroup(x: nat, p: nat, y: nat, bit: nat)
    ensures (x * p + y) * 2 + bit == x * (2 * p) + (y * 2 + bit)
  {
  }

  lemma HalfRemainder(x: nat, m: nat)
    requires m > 0
    ensures x % (2 * m) == x / 2 % m * 2 + x % 2
  {
    var q := x / 2;
    var u, v := q / m, q % m;
    assert q == u * m + v;
    assert x == u * (2 * m) + (v * 2 + x % 2) by { assert u * (2 * m) == u * m * 2; }
    Remainder(x, 2 * m, u, v * 2 + x % 2);
  }

  lemma Remainder(x: nat, m: nat, q: nat, r: nat)
    requires m > 0 && x == q * m + r && r < m
    ensures x % m == r && x / m == q
  {
    var d := q - x / m;
    assert x == x / m * m + x % m;
    assert d * m == x % m - r by { assert (q - x / m) * m == q * m - x / m * m; }
    Multiples(d, m);
  }

  lemma Multiples(d: int, m: nat)
    requires m > 0
    ensures d >= 1 ==> d * m >= m
    ensures d <= -1 ==> d * m <= 0 - m
  {
  }

  lemma DivideTwice(x: nat, k: nat)
    ensures x / Power2(k + 1) == x / Power2(k) / 2
  {
    var p := Power2(k);
    var q := x / p;
    assert x == q * p + x % p;
    assert x == q / 2 * (2 * p) + (q % 2 * p + x % p) by { assert q / 2 * 2 * p + q % 2 * p == q * p; }
    Remainder(x, 2 * p, q / 2, q % 2 * p + x % p);
  }

  /** The shift and mask that pick `c` bits of a byte, `k` from its end. */
  function Field(b: nat, k: nat, c: nat): nat { b / Power2(k) % Power2(c) }

  /** The chunk that ReadBits takes out of one byte. */
  lemma {:induction false} ChunkBits(data: bytes, pos: nat, c: nat)
    requires pos % 8 + c <= 8
    ensures Bits(data, pos, c) == Field(At(data, pos / 8), 8 - pos % 8 - c, c)
  {
    hide BitAt, Field;
    if c > 0 {
      ChunkBits(data, pos, c - 1);
      LastBit(data, pos, c - 1);
      ChunkStep(At(data, pos / 8), 8 - pos % 8 - c, c);
    } else {
      EmptyField(At(data, pos / 8), 8 - pos % 8);
    }
  }

  lemma EmptyField(b: nat, k: nat)
    ensures Field(b, k, 0) == 0
  {
  }

  lemma ChunkStep(b: nat, k: nat, c: nat)
    requires c > 0
    ensures Field(b, k + 1, c - 1) * 2 + Field(b, k, 1) == Field(b, k, c)
  {
    hide Power2;
    PowerSteps(c);
    DivideTwice(b, k);
    HalfRemainder(b / Power2(k), Power2(c - 1));
  }

  lemma PowerSteps(c: nat)
    requires c > 0
    ensures Power2(c) == 2 * Power2(c - 1) && Power2(1) == 2
  {
  }

  lemma SameByte(pos: nat, c: nat)
    requires pos % 8 + c < 8
    ensures (pos + c) / 8 == pos / 8 && (pos + c) % 8 == pos % 8 + c
  {
  }

  lemma LastBit(data: bytes, pos: nat, c: nat)
    requires pos % 8 + c < 8
    ensures BitAt(data, pos + c) == Field(At(data, pos / 8), 7 - pos % 8 - c, 1)
  {
    assert Power2(1) == 2;
    SameByte(pos, c);
  }

  const REGISTER: nat := 0x1_0000_0000

  lemma ShiftRegister(x: nat, k: nat, c: nat)
    ensures (x % REGISTER * k + c) % REGISTER == (x * k + c) % REGISTER
  {
    var q := x / REGISTER;
    assert x * k + c == q * k * REGISTER + (x % REGISTER * k + c) by {
      assert x == q * REGISTER + x % REGISTER;
      assert (q * REGISTER + x % REGISTER) * k == q * k * REGISTER + x % REGISTER * k;
    }
    AddMultiple(x % REGISTER * k + c, q * k);
  }

  lemma AddMultiple(y: nat, m: nat)
    ensures (m * REGISTER + y) % REGISTER == y % REGISTER
  {
  }

  class BitReader {
    const data: bytes
    var pos: nat

    constructor (data: bytes)
      ensures this.data == data && pos == 0
    {
      this.data := data;
      pos := 0;
    }

    /** Any number of bits, a byte's worth or less at a time; the register keeps the last 32 of them. */
    method ReadBits(n: nat) returns (result: nat)
      requires pos + n <= 8 * |data|
      modifies this`pos
      ensures pos == old(pos) + n
      ensures result == Bits(data, old(pos), n) % REGISTER
      ensures n <= 32 ==> result == Bits(data, old(pos), n)
    {
      hide Bits, Power2, Field;
      ghost var start := pos;
      result := 0;
      var left := n;
      NoBits(data, start);
      while left > 0
        invariant 0 <= left <= n && pos == start + (n - left)
        invariant result == Bits(data, start, pos - start) % REGISTER
      {
        var available := 8 - pos % 8;
        var chunk := if available >= left then left else available;
        var bits := Field(data[pos / 8], available - chunk, chunk);
        ReadChunk(data, start, pos - start, chunk);
        result := (result * Power2(chunk) + bits) % REGISTER;
        left := left - chunk;
        pos := pos + chunk;
      }
      BitsBound(data, start, n);
      if n <= 32 { Register32(n); }
    }
  }

  lemma NoBits(data: bytes, pos: nat)
    ensures Bits(data, pos, 0) == 0
  {
  }

  /** One pass of the loop of ReadBits, on the register. */
  lemma ReadChunk(data: bytes, start: nat, done: nat, chunk: nat)
    requires var pos := start + done; pos / 8 < |data| && pos % 8 + chunk <= 8
    ensures var pos := start + done;
      var bits := Field(data[pos / 8], 8 - pos % 8 - chunk, chunk);
      (Bits(data, start, done) % REGISTER * Power2(chunk) + bits) % REGISTER
      == Bits(data, start, done + chunk) % REGISTER
  {
    hide Bits, Power2, Field;
    var pos := start + done;
    ChunkBits(data, pos, chunk);
    BitsCompose(data, start, done, chunk);
    ShiftRegister(Bits(data, start, done), Power2(chunk), Field(data[pos / 8], 8 - pos % 8 - chunk, chunk));
  }

  lemma {:induction false} Power2Grows(k: nat, n: nat)
    requires k <= n
    ensures Power2(k) <= Power2(n)
  {
    if k < n { Power2Grows(k, n - 1); }
  }

  lemma Register32(n: nat)
    requires n <= 32
    ensures Power2(n) <= REGISTER
  {
    hide Power2;
    Power2Grows(n, 32);
    Power8();
    Power2Sum(8, 8);
    Power2Sum(16, 16);
  }

  lemma Power8()
    ensures Power2(8) == 256
  {
    assert Power2(4) == 16;
  }

  lemma Doubled(x: nat, y: nat)
    ensures x * (2 * y) == 2 * (x * y)
  {
  }

  lemma {:induction false} Power2Sum(a: nat, b: nat)
    ensures Power2(a + b) == Power2(a) * Power2(b)
  {
    if b > 0 {
      Power2Sum(a, b - 1);
      Doubled(Power2(a), Power2(b - 1));
    }
  }

  // ---------- AudioSpecificConfig ----------

  datatype Config = Config(objectType: nat, sampleRate: nat, channels: nat)

  const RATES: seq<nat> :=
    [96000, 88200, 64000, 48000, 44100, 32000, 24000, 22050, 16000, 12000, 11025, 8000, 7350, 0, 0, 0]

  /** Three rates and their halves, quarters and eighths, then 7350; the last three indices stand for no rate. */
  lemma RatesHalve()
    ensures |RATES| == 16 && RATES[0] == 96000 && RATES[1] == 88200 && RATES[2] == 64000
    ensures forall k :: 0 <= k < 9 ==> RATES[k] == 2 * RATES[k + 3]
    ensures RATES[12] == 7350 && RATES[13] == RATES[14] == RATES[15] == 0
  {
  }

  const ESCAPE_TYPE: nat := 31
  const ESCAPE_RATE: nat := 15

  /** Where the sampling frequency index starts, and where the channel configuration does, in bits. */
  function RateAt(d: bytes): nat { if Bits(d, 0, 5) == 31 then 11 else 5 }

  function ChannelsAt(d: bytes): nat {
    RateAt(d) + 4 + if Bits(d, RateAt(d), 4) == 15 then 24 else 0
  }

  lemma {:induction false} BitsSmall(d: bytes, pos: nat)
    ensures Bits(d, pos, 4) < 16 && Bits(d, pos, 5) < 32
  {
    BitsBound(d, pos, 4);
    BitsBound(d, pos, 5);
    assert Power2(4) == 16 && Power2(5) == 32;
  }

  /** The fields read one after the other, as the standard lists them. */
  function Sequential(d: bytes): Config {
    var r := RateAt(d);
    BitsSmall(d, r);
    Config(
      if Bits(d, 0, 5) == 31 then 32 + Bits(d, 5, 6) else Bits(d, 0, 5),
      if Bits(d, r, 4) == 15 then Bits(d, r + 4, 24) else RATES[Bits(d, r, 4)],
      Bits(d, ChannelsAt(d), 4))
  }

  /** Bits inside one byte, and runs over byte boundaries, as the branches of get_aac_header pick them. */
  lemma Pick(d: bytes, pos: nat, c: nat)
    requires pos % 8 + c <= 8
    ensures Bits(d, pos, c) == At(d, pos / 8) / Power2(8 - pos % 8 - c) % Power2(c)
  {
    ChunkBits(d, pos, c);
  }

  lemma Powers()
    ensures Power2(0) == 1 && Power2(1) == 2 && Power2(2) == 4 && Power2(3) == 8 && Power2(4) == 16
    ensures Power2(5) == 32 && Power2(6) == 64 && Power2(7) == 128 && Power2(8) == 256
  {
    Power8();
    assert Power2(4) == 16;
  }

  lemma Powers24()
    ensures Power2(16) == 65536 && Power2(17) == 131072 && Power2(23) == 8388608 && Power2(24) == 16777216
  {
    hide Power2;
    Powers();
    Power2Sum(8, 8);
    Power2Sum(16, 1);
    Power2Sum(16, 7);
    Power2Sum(16, 8);
  }

  lemma WholeByte(d: bytes, k: nat)
    ensures Bits(d, 8 * k, 8) == At(d, k)
  {
    hide Bits, Power2;
    Powers();
    Pick(d, 8 * k, 8);
  }

  lemma ThreeBytes(d: bytes, k: nat)
    ensures Bits(d, 8 * k, 16) == At(d, k) * 256 + At(d, k + 1)
    ensures Bits(d, 8 * k, 24) == (At(d, k) * 256 + At(d, k + 1)) * 256 + At(d, k + 2)
  {
    hide Bits, Power2;
    Powers();
    BitsCompose(d, 8 * k, 8, 8);
    BitsCompose(d, 8 * k, 16, 8);
    WholeByte(d, k);
    WholeByte(d, k + 1);
    WholeByte(d, k + 2);
  }

  /** Object type and frequency index in the first two bytes, without the escape. */
  lemma ShortFields(d: bytes)
    ensures Bits(d, 0, 5) == At(d, 0) / 8
    ensures Bits(d, 5, 4) == At(d, 0) * 2 % 16 + At(d, 1) / 128
    ensures Bits(d, 9, 4) == At(d, 1) / 8 % 16
  {
    hide Bits, Power2;
    Powers();
    Pick(d, 0, 5);
    Pick(d, 5, 3);
    Pick(d, 8, 1);
    Pick(d, 9, 4);
    BitsCompose(d, 5, 3, 1);
    HalfRemainder(At(d, 0) * 2, 8);
  }

  lemma ShortEscapedRate(d: bytes)
    ensures var v := (At(d, 2) * 256 + At(d, 3)) * 256 + At(d, 4);
      Bits(d, 9, 24) == At(d, 1) % 128 * 131072 + v / 128 && Bits(d, 33, 4) == v / 8 % 16
  {
    hide Bits, Power2;
    Powers();
    Powers24();
    Pick(d, 9, 7);
    ThreeBytes(d, 2);
    Pick(d, 32, 1);
    Pick(d, 33, 4);
    BitsCompose(d, 9, 7, 17);
    BitsCompose(d, 16, 16, 1);
    LowByte(At(d, 2) * 256 + At(d, 3), At(d, 4));
  }

  lemma LowByte(x: nat, c: byte)
    ensures (x * 256 + c) / 128 == x * 2 + c / 128 && (x * 256 + c) / 8 % 16 == c / 8 % 16
    ensures (x * 256 + c) / 2 == x * 128 + c / 2 && (x * 256 + c) % 2 == c % 2
  {
    assert (x * 256 + c) / 8 == x * 32 + c / 8;
  }

  lemma LongFields(d: bytes)
    ensures Bits(d, 5, 6) == At(d, 0) % 8 * 8 + At(d, 1) / 32
    ensures Bits(d, 11, 4) == At(d, 1) / 2 % 16
    ensures Bits(d, 15, 4) == At(d, 1) % 2 * 8 + At(d, 2) / 32
  {
    hide Bits, Power2;
    Powers();
    Pick(d, 5, 3);
    Pick(d, 8, 3);
    Pick(d, 11, 4);
    Pick(d, 15, 1);
    Pick(d, 16, 3);
    BitsCompose(d, 5, 3, 3);
    BitsCompose(d, 15, 1, 3);
  }

  lemma LongEscapedRate(d: bytes)
    ensures var v := (At(d, 2) * 256 + At(d, 3)) * 256 + At(d, 4);
      && Bits(d, 15, 24) == At(d, 1) % 2 * 8388608 + v / 2
      && Bits(d, 39, 4) == v % 2 * 8 + At(d, 5) / 32
  {
    hide Bits, Power2;
    Powers();
    Powers24();
    Pick(d, 15, 1);
    ThreeBytes(d, 2);
    Pick(d, 32, 7);
    Pick(d, 39, 1);
    Pick(d, 40, 3);
    BitsCompose(d, 15, 1, 23);
    BitsCompose(d, 16, 16, 7);
    BitsCompose(d, 39, 1, 3);
    LowByte(At(d, 2) * 256 + At(d, 3), At(d, 4));
  }

  // ---------- The two parsers ----------

  const FLV_AAC: nat := 10
  const FLV_AAC_SEQUENCE_HEADER: nat := 0

  /** The two bytes in front of the configuration announce an AAC sequence header. */
  predicate Announced(s: bytes) { |s| >= 2 && s[0] / 16 == 10 && s[1] == 0 }

  /** The lengths that get_aac_header asks for, branch by branch. */
  predicate LongEnough(d: bytes) {
    && |d| >= 2
    && (Bits(d, 0, 5) == 31 ==> |d| >= if Bits(d, 11, 4) == 15 then 6 else 3)
    && (Bits(d, 0, 5) != 31 && Bits(d, 5, 4) == 15 ==> |d| > 5)
  }

  /** What get_aac_header accepts. */
  predicate HeaderAccepted(s: bytes) { Announced(s) && LongEnough(s[2..]) }

  /** What ParseAACSequenceHeader accepts: no escaped object type, and one of seven channel configurations. */
  predicate ParseAccepted(s: bytes) {
    && Announced(s) && |s| >= 6
    && 1 <= Bits(s[2..], 0, 5) < 31
    && (Bits(s[2..], 5, 4) == 15 ==> |s| >= 10)
    && 1 <= Bits(s[2..], ChannelsAt(s[2..]), 4) < 8
  }

  function Join(high: nat, low: nat): nat { high * 256 + low }

  /** A buffer pointer and a length, which the readers move on together. */
  class Input {
    const data: bytes
    var at: nat

    constructor (data: bytes)
      ensures this.data == data && at == 0
    {
      this.data := data;
      at := 0;
    }

    /** read_1byte, read_2byte and read_3byte. */
    method Read(n: nat) returns (value: nat)
      requires 1 <= n <= 3 && at + n <= |data|
      modifies this`at
      ensures at == old(at) + n
      ensures n == 1 ==> value == data[old(at)]
      ensures n == 2 ==> value == Join(data[old(at)], data[old(at) + 1])
      ensures n == 3 ==> value == Join(Join(data[old(at)], data[old(at) + 1]), data[old(at) + 2])
    {
      value := 0;
      for k := 0 to n
        invariant at == old(at) + k
        invariant k == 0 ==> value == 0
        invariant k == 1 ==> value == data[old(at)]
        invariant k == 2 ==> value == Join(data[old(at)], data[old(at) + 1])
        invariant k == 3 ==> value == Join(Join(data[old(at)], data[old(at) + 1]), data[old(at) + 2])
      {
        value := value * 256 + data[at];
        at := at + 1;
      }
    }
  }

  lemma ConfigShort(d: bytes)
    requires Bits(d, 0, 5) != 31
    ensures Bits(d, 5, 4) < 16
    ensures Sequential(d) == if Bits(d, 5, 4) == 15 then Config(Bits(d, 0, 5), Bits(d, 9, 24), Bits(d, 33, 4))
                             else Config(Bits(d, 0, 5), RATES[Bits(d, 5, 4)], Bits(d, 9, 4))
  {
    hide Bits;
    BitsSmall(d, 5);
  }

  lemma ConfigLong(d: bytes)
    requires Bits(d, 0, 5) == 31
    ensures Bits(d, 11, 4) < 16
    ensures Sequential(d)
         == if Bits(d, 11, 4) == 15 then Config(32 + Bits(d, 5, 6), Bits(d, 15, 24), Bits(d, 39, 4))
                             else Config(32 + Bits(d, 5, 6), RATES[Bits(d, 11, 4)], Bits(d, 15, 4))
  {
    hide Bits;
    BitsSmall(d, 11);
  }

  /** get_aac_header: whichever branch it takes, its fields are those of the sequential reading. */
  method GetAacHeader(input: Input) returns (ok: bool, c: Config)
    requires input.at == 0
    modifies input`at
    ensures ok == HeaderAccepted(input.data)
    ensures ok ==> c == Sequential(input.data[2..])
  {
    hide Bits, Sequential;
    var s := input.data;
    c := Config(0, 0, 0);
    if |s| < 2 { return false, c; }
    var fmtType := input.Read(2);
    if fmtType / 256 / 16 != FLV_AAC || fmtType % 256 != FLV_AAC_SEQUENCE_HEADER { return false, c; }
    ghost var d := s[2..];
    if |s| - input.at < 2 { return false, c; }
    var header := input.Read(2);
    var hb, lb := header / 256, header % 256;
    assert hb == At(d, 0) && lb == At(d, 1);
    ShortFields(d);
    if hb / 8 == ESCAPE_TYPE {
      ConfigLong(d);
      ok, c := LongHeader(input, hb, lb, d);
    } else {
      ConfigShort(d);
      ok, c := ShortHeader(input, hb, lb, d);
    }
  }

  /** The two branches with an escaped object type. */
  method LongHeader(input: Input, hb: nat, lb: nat, ghost d: bytes) returns (ok: bool, c: Config)
    requires input.at == 4 <= |input.data| && d == input.data[2..]
    requires hb == At(d, 0) && lb == At(d, 1) && Bits(d, 0, 5) == 31
    modifies input`at
    ensures ok == LongEnough(d) && (ok ==> c == Sequential(d))
  {
    hide Bits, Sequential;
    ConfigLong(d);
    LongFields(d);
    c := Config(0, 0, 0);
    var objectType, rateIndex := hb % 8 * 8 + lb / 32 + 32, lb / 2 % 16;
    if rateIndex == ESCAPE_RATE {
      LongEscapedRate(d);
      if |input.data| - input.at < 3 { return false, c; }
      var v := input.Read(3);
      if |input.data| - input.at < 1 { return false, c; }
      var b3 := input.Read(1);
      return true, Config(objectType, lb % 2 * 8388608 + v / 2, v % 2 * 8 + b3 / 32);
    }
    if |input.data| - input.at < 1 { return false, c; }
    var b3 := input.Read(1);
    return true, Config(objectType, RATES[rateIndex], lb % 2 * 8 + b3 / 32);
  }

  /** The two branches without. */
  method ShortHeader(input: Input, hb: nat, lb: nat, ghost d: bytes) returns (ok: bool, c: Config)
    requires input.at == 4 <= |input.data| && d == input.data[2..]
    requires hb == At(d, 0) && lb == At(d, 1) && Bits(d, 0, 5) != 31
    modifies input`at
    ensures ok == LongEnough(d) && (ok ==> c == Sequential(d))
  {
    hide Bits, Sequential;
    ConfigShort(d);
    ShortFields(d);
    c := Config(0, 0, 0);
    var rateIndex := hb * 2 % 16 + lb / 128;
    if rateIndex == ESCAPE_RATE {
      ShortEscapedRate(d);
      if |input.data| - input.at <= 3 { return false, c; }
      var v := input.Read(3);
      return true, Config(hb / 8, lb % 128 * 131072 + v / 128, v / 8 % 16);
    }
    return true, Config(hb / 8, RATES[rateIndex], lb / 8 % 16);
  }

  /** ParseAACSequenceHeader: the fields with a BitReader over the rest of the buffer. */
  method ParseAACSequenceHeader(input: Input) returns (ok: bool, c: Config)
    requires input.at == 0
    modifies input`at
    ensures ok == ParseAccepted(input.data)
    ensures ok ==> c == Sequential(input.data[2..])
  {
    hide Bits, Sequential;
    var s := input.data;
    c := Config(0, 0, 0);
    if |s| < 2 { return false, c; }
    var fmtType := input.Read(2);
    if fmtType / 256 / 16 != FLV_AAC || fmtType % 256 != FLV_AAC_SEQUENCE_HEADER { return false, c; }
    if |s| - input.at < 4 { return false, c; }
    var d := s[2..];
    var reader := new BitReader(d);
    var objectType := reader.ReadBits(5);
    if !(1 <= objectType < 31) { return false, c; }
    ConfigShort(d);
    var rateIndex := reader.ReadBits(4);
    var rate := RATES[rateIndex];
    if rateIndex == ESCAPE_RATE {
      if |s| - input.at < 8 { return false, c; }
      rate := reader.ReadBits(24);
    }
    var channels := reader.ReadBits(4);
    if !(1 <= channels < 8) { return false, c; }
    return true, Config(objectType, rate, channels);
  }

  /**
   Whatever ParseAACSequenceHeader accepts, get_aac_header accepts; by their contracts, with the same three fields.
   */
  lemma ParseImpliesHeader(s: bytes)
    requires ParseAccepted(s)
    ensures HeaderAccepted(s)
    ensures Sequential(s[2..]).objectType < 31 && 1 <= Sequential(s[2..]).channels < 8
  {
    hide Bits;
    BitsSmall(s[2..], 5);
  }

  /**
   get_aac_header accepts exactly the announced headers that hold all the bits of their fields, apart from those of five
   bytes with an escaped rate and a plain object type, for which it asks for a sixth.
   */
  lemma HeaderExactly(s: bytes)
    ensures HeaderAccepted(s)
       <==> |s| >= 2 && s[0] / 16 == 10 && s[1] == 0
            && (var d := s[2..];
                ChannelsAt(d) + 4 <= 8 * |d| && !(|d| == 5 && Bits(d, 0, 5) != 31 && Bits(d, 5, 4) == 15))
  {
    hide Bits;
  }

  /** Not the other way round: a configuration of two bytes is enough for get_aac_header only. */
  lemma TwoByteConfig()
    ensures var s := [0xAF, 0x00, 0x12, 0x10];
      HeaderAccepted(s) && !ParseAccepted(s) && Sequential(s[2..]) == Config(2, 44100, 2)
  {
    hide Bits;
    var s: bytes := [0xAF, 0x00, 0x12, 0x10];
    var d := s[2..];
    ShortFields(d);
    assert At(d, 0) == 0x12 && At(d, 1) == 0x10;
    ConfigShort(d);
  }
}
