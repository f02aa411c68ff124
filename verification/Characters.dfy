/** The characters that the parsers and printers know by name, and the digits. */
module Characters {
  import opened Bytes

  const QUOTE: byte := 0x22
  const HASH: byte := 0x23
  const PERCENT: byte := 0x25
  const STAR: byte := 0x2A
  const PLUS: byte := 0x2B
  const COMMA: byte := 0x2C
  const MINUS: byte := 0x2D
  const DOT: byte := 0x2E
  const SLASH: byte := 0x2F
  const ZERO: byte := 0x30
  const ONE: byte := 0x31
  const COLON: byte := 0x3A
  const LEFT_BRACKET: byte := 0x5B
  const BACKSLASH: byte := 0x5C
  const RIGHT_BRACKET: byte := 0x5D
  const LOWER_F: byte := 0x66
  const LOWER_N: byte := 0x6E
  const LOWER_T: byte := 0x74
  const LOWER_U: byte := 0x75
  const LEFT_BRACE: byte := 0x7B
  const RIGHT_BRACE: byte := 0x7D
  const TILDE: byte := 0x7E
  const NEWLINE: byte := 0x0A
  const SPACE: byte := 0x20

  const NULL_TEXT: bytes := [0x6E, 0x75, 0x6C, 0x6C]
  const TRUE_TEXT: bytes := [0x74, 0x72, 0x75, 0x65]
  const FALSE_TEXT: bytes := [0x66, 0x61, 0x6C, 0x73, 0x65]
  const UNICODE_ESCAPE: bytes := [0x5C, 0x75]

  predicate IsDigit(b: byte) { 0x30 <= b <= 0x39 }

  /** The value of a hexadecimal digit of either case, or -1. */
  function HexValue(b: byte): (v: int)
    ensures -1 <= v < 16
  {
    if 0x30 <= b <= 0x39 then b - 0x30
    else if 0x41 <= b <= 0x46 then b - 0x41 + 10
    else if 0x61 <= b <= 0x66 then b - 0x61 + 10
    else -1
  }

  /** The upper-case hexadecimal digit of a value. */
  function HexDigit(v: nat): (b: byte)
    requires v < 16
    ensures HexValue(b) == v
  {
    if v < 10 then 0x30 + v else 0x41 + (v - 10)
  }
}
