/**
 JSON texts as sections 2 to 7 of RFC 7159 describe them, read off the text by positions and with the characters written
 out: which tree the text between two positions spells.  Comments and a trailing comma are JSON where the flags allow
 them.  Three things are as the reader has them: a text ends at its first NUL, bytes above 0x7F stand in strings as they
 are, and of the escapes of lone surrogates the trailing ones stand for themselves and the leading ones are no string.
 */
module JsonText {
  import opened Bytes
  import opened Dom
  import opened Grammar
  import Unicode

  // ---------- White space and comments ----------

  /** One character of white space, or one comment. */
  ghost predicate IsFiller(c: Config, s: bytes, i: nat, k: nat) {
    && i < k <= |s|
    && ((k == i + 1 && s[i] in {0x20, 0x09, 0x0A, 0x0D})
        || (c.comments && (IsBlockComment(s, i, k) || IsLineComment(s, i, k))))
  }

  /** From an opening of a block comment to the first closing after it. */
  ghost predicate IsBlockComment(s: bytes, i: nat, k: nat) {
    && i + 4 <= k <= |s|
    && s[i] == 0x2F && s[i + 1] == 0x2A && s[k - 2] == 0x2A && s[k - 1] == 0x2F
    && forall m :: i + 2 <= m < k - 2 ==> s[m] != 0 && !(s[m] == 0x2A && s[m + 1] == 0x2F)
  }

  /** From two slashes to the end of the line, or of the text. */
  ghost predicate IsLineComment(s: bytes, i: nat, k: nat) {
    && i + 2 <= k <= |s|
    && s[i] == 0x2F && s[i + 1] == 0x2F
    && ((i + 2 < k && s[k - 1] == 0x0A && InLine(s, i + 2, k - 1)) || (At(s, k) == 0 && InLine(s, i + 2, k)))
  }

  ghost predicate InLine(s: bytes, i: nat, j: nat)
    requires j <= |s|
  {
    forall m :: i <= m < j ==> s[m] != 0x0A && s[m] != 0
  }

  /** What may stand between tokens. */
  ghost predicate IsGap(c: Config, s: bytes, i: nat, j: nat)
    decreases j - i
  {
    && i <= j <= |s|
    && (i == j || exists k :: i < k <= j && IsFiller(c, s, i, k) && IsGap(c, s, k, j))
  }

  // ---------- Strings ----------

  /** 0 to 9 and a to f. */
  const LOWER_DIGITS: bytes := [
    0x30, 0x31, 0x32, 0x33, 0x34, 0x35, 0x36, 0x37, 0x38, 0x39, 0x61, 0x62, 0x63, 0x64, 0x65, 0x66]

  /** 0 to 9 and A to F. */
  const UPPER_DIGITS: bytes := [
    0x30, 0x31, 0x32, 0x33, 0x34, 0x35, 0x36, 0x37, 0x38, 0x39, 0x41, 0x42, 0x43, 0x44, 0x45, 0x46]

  /** What follows the backslash, and what it stands for: quotation mark, backslash, slash, b, f, n, r and t. */
  const ESCAPES: seq<(byte, byte)> := [
    (0x22, 0x22), (0x5C, 0x5C), (0x2F, 0x2F), (0x62, 0x08), (0x66, 0x0C), (0x6E, 0x0A), (0x72, 0x0D), (0x74, 0x09)]

  /** That many hexadecimal digits, of either case, that write a number. */
  predicate IsHex(s: bytes, i: nat, count: nat, n: nat) {
    if count == 0 then n == 0
    else
      && i + count <= |s|
      && (s[i + count - 1] == LOWER_DIGITS[n % 16] || s[i + count - 1] == UPPER_DIGITS[n % 16])
      && IsHex(s, i, count - 1, n / 16)
  }

  /** A backslash, a u and four digits. */
  predicate IsUnit(s: bytes, i: nat, n: nat) {
    i + 6 <= |s| && s[i] == 0x5C && s[i + 1] == 0x75 && IsHex(s, i + 2, 4, n)
  }

  predicate IsPlain(s: bytes, i: nat, k: nat, u: bytes) {
    i < |s| && k == i + 1 && s[i] >= 0x20 && s[i] != 0x22 && s[i] != 0x5C && u == [s[i]]
  }

  ghost predicate IsEscape(s: bytes, i: nat, k: nat, u: bytes) {
    && i + 2 <= |s| && k == i + 2 && s[i] == 0x5C && |u| == 1
    && (s[i + 1], u[0]) in ESCAPES
  }

  ghost predicate IsUnicode(s: bytes, i: nat, k: nat, u: bytes) {
    && k == i + 6
    && exists n: nat :: n <= 0xFFFF && !(0xD800 <= n <= 0xDBFF) && IsUnit(s, i, n) && u == Unicode.Encode(n)
  }

  predicate IsLead(s: bytes, i: nat, n: nat) { 0xD800 <= n <= 0xDBFF && IsUnit(s, i, n) }

  predicate IsTrail(s: bytes, i: nat, n: nat) { 0xDC00 <= n <= 0xDFFF && IsUnit(s, i, n) }

  function Combined(lead: nat, trail: nat): bytes
    requires 0xD800 <= lead <= 0xDBFF && 0xDC00 <= trail <= 0xDFFF
  {
    Unicode.Encode(0x1_0000 + (lead - 0xD800) * 1024 + (trail - 0xDC00))
  }

  ghost predicate IsSurrogatePair(s: bytes, i: nat, k: nat, u: bytes) {
    k == i + 12 && exists hi: nat, lo: nat :: IsLead(s, i, hi) && IsTrail(s, i + 6, lo) && u == Combined(hi, lo)
  }

  /** One character of a string as it is written, and the bytes it stands for. */
  ghost predicate IsCharacter(s: bytes, i: nat, k: nat, u: bytes) {
    IsPlain(s, i, k, u) || IsEscape(s, i, k, u) || IsUnicode(s, i, k, u) || IsSurrogatePair(s, i, k, u)
  }

  /** The characters of a string and its closing quotation mark. */
  ghost predicate IsBody(s: bytes, i: nat, j: nat, text: bytes)
    decreases j - i
  {
    && i < j <= |s|
    && ((text == [] && j == i + 1 && s[i] == 0x22)
        || (exists k, n ::
              i < k < j && 0 <= n <= |text| && IsCharacter(s, i, k, text[..n]) && IsBody(s, k, j, text[n..])))
  }

  ghost predicate IsString(s: bytes, i: nat, j: nat, text: bytes) {
    i < |s| && s[i] == 0x22 && IsBody(s, i + 1, j, text)
  }

  // ---------- Numbers ----------

  predicate IsDigits(s: bytes, i: nat, j: nat) { i < j <= |s| && forall k :: i <= k < j ==> 0x30 <= s[k] <= 0x39 }

  /** The integer part: no leading zeros. */
  predicate IsInteger(s: bytes, i: nat, j: nat) { IsDigits(s, i, j) && (s[i] == 0x30 ==> j == i + 1) }

  predicate IsFraction(s: bytes, i: nat, j: nat) { j == i || (i < |s| && s[i] == 0x2E && IsDigits(s, i + 1, j)) }

  predicate IsExponent(s: bytes, i: nat, j: nat) {
    || j == i
    || (i + 1 < |s| && (s[i] == 0x65 || s[i] == 0x45)
        && (IsDigits(s, i + 1, j) || ((s[i + 1] == 0x2B || s[i + 1] == 0x2D) && IsDigits(s, i + 2, j))))
  }

  /** The number that digits write. */
  function NumberOf(s: bytes, i: nat, j: nat): nat
    requires i <= j <= |s| && forall k :: i <= k < j ==> 0x30 <= s[k] <= 0x39
  {
    if i == j then 0 else NumberOf(s, i, j - 1) * 10 + (s[j - 1] - 0x30)
  }

  /** Integers of 64 bits are numbers; all others are handed on as they are written. */
  predicate IsNumberFrom(c: Config, s: bytes, i: nat, a: nat, b: nat, j: nat, v: Value)
    requires i <= a <= j <= |s| && IsInteger(s, a, b)
  {
    var n := NumberOf(s, a, b);
    if j == b && a == i && n <= 0xFFFF_FFFF_FFFF_FFFF then v == NumberValue(n)
    else if j == b && a > i && n <= 0x8000_0000_0000_0000 then v == NumberValue(-(n as int))
    else v == DoubleValue(s[i..j]) && !c.overflows(s[i..j])
  }

  ghost predicate IsNumber(c: Config, s: bytes, i: nat, j: nat, v: Value) {
    && i < j <= |s|
    && var a := if s[i] == 0x2D then i + 1 else i;
       exists b, f ::
         a < b <= f <= j && IsInteger(s, a, b) && IsFraction(s, b, f) && IsExponent(s, f, j)
         && IsNumberFrom(c, s, i, a, b, j, v)
  }

  // ---------- Values ----------

  /** The text from `i` to `j` spells the value. */
  ghost predicate IsValue(c: Config, s: bytes, i: nat, j: nat, v: Value)
    decreases j - i, 1
  {
    && i < j <= |s|
    && match v
       case NullValue => s[i..j] == [0x6E, 0x75, 0x6C, 0x6C]
       case BoolValue(b) => s[i..j] == if b then [0x74, 0x72, 0x75, 0x65] else [0x66, 0x61, 0x6C, 0x73, 0x65]
       case NumberValue(_) => IsNumber(c, s, i, j, v)
       case DoubleValue(_) => IsNumber(c, s, i, j, v)
       case StringValue(text) => IsString(s, i, j, text)
       case ArrayValue(vs) =>
         && i + 2 <= j && s[i] == 0x5B && s[j - 1] == 0x5D
         && if vs == [] then IsGap(c, s, i + 1, j - 1) else IsElements(c, s, i + 1, j - 1, vs)
       case ObjectValue(ms) =>
         && i + 2 <= j && s[i] == 0x7B && s[j - 1] == 0x7D
         && if ms == [] then IsGap(c, s, i + 1, j - 1) else IsMembers(c, s, i + 1, j - 1, ms)
  }

  /** What stands between the brackets of an array that is not empty. */
  ghost predicate IsElements(c: Config, s: bytes, i: nat, j: nat, vs: seq<Value>)
    decreases j - i, 2
  {
    && vs != []
    && exists a, b ::
         i <= a < b <= j && IsGap(c, s, i, a) && IsValue(c, s, a, b, vs[0]) && IsMoreElements(c, s, b, j, vs[1..])
  }

  ghost predicate IsMoreElements(c: Config, s: bytes, i: nat, j: nat, vs: seq<Value>)
    decreases j - i, 3
  {
    if vs == [] then IsEnd(c, s, i, j)
    else exists m :: i <= m < j && IsComma(c, s, i, m) && IsElements(c, s, m + 1, j, vs)
  }

  /** A comma, and what may stand before it. */
  ghost predicate IsComma(c: Config, s: bytes, i: nat, m: nat) {
    m < |s| && s[m] == 0x2C && IsGap(c, s, i, m)
  }

  /** What may stand between the last element or member and the closing bracket. */
  ghost predicate IsEnd(c: Config, s: bytes, i: nat, j: nat) {
    || IsGap(c, s, i, j)
    || (c.trailingCommas && exists m: nat :: IsComma(c, s, i, m) && IsGap(c, s, m + 1, j))
  }

  /** What stands between the braces of an object that is not empty. */
  ghost predicate IsMembers(c: Config, s: bytes, i: nat, j: nat, ms: seq<Member>)
    decreases j - i, 2
  {
    && ms != []
    && exists a, b ::
         i < a < b <= j && IsName(c, s, i, a, ms[0].name) && IsValue(c, s, a, b, ms[0].value)
         && IsMoreMembers(c, s, b, j, ms[1..])
  }

  ghost predicate IsMoreMembers(c: Config, s: bytes, i: nat, j: nat, ms: seq<Member>)
    decreases j - i, 3
  {
    if ms == [] then IsEnd(c, s, i, j)
    else exists m :: i <= m < j && IsComma(c, s, i, m) && IsMembers(c, s, m + 1, j, ms)
  }

  /** A name and its colon, with what may stand around them. */
  ghost predicate IsName(c: Config, s: bytes, i: nat, j: nat, name: bytes) {
    exists m :: i < m < j && m < |s| && s[m] == 0x3A && IsKey(c, s, i, m, name) && IsGap(c, s, m + 1, j)
  }

  ghost predicate IsKey(c: Config, s: bytes, i: nat, j: nat, name: bytes) {
    exists a, b :: i <= a < b <= j && IsGap(c, s, i, a) && IsString(s, a, b, name) && IsGap(c, s, b, j)
  }

  /** The text up to `n` is one value with what may stand around it. */
  ghost predicate IsDocument(c: Config, s: bytes, n: nat, v: Value) {
    exists a: nat, b: nat :: a < b <= n && IsGap(c, s, 0, a) && IsValue(c, s, a, b, v) && IsGap(c, s, b, n)
  }
}
