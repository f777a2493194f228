/** Code units and the few facts about them that scanning depends on. */
module Characters {
  /** A UTF-16 code unit. */
  type Unit = c: int | 0 <= c < 0x10000

  const BACKSPACE: Unit := 0x08
  const TAB: Unit := 0x09
  const LF: Unit := 0x0A
  const VT: Unit := 0x0B
  const FF: Unit := 0x0C
  const CR: Unit := 0x0D
  const SPACE: Unit := 0x20
  const EXCLAMATION: Unit := 0x21
  const QUOTE: Unit := 0x22
  const APOSTROPHE: Unit := 0x27
  const ASTERISK: Unit := 0x2A
  const PLUS: Unit := 0x2B
  const MINUS: Unit := 0x2D
  const PERIOD: Unit := 0x2E
  const SLASH: Unit := 0x2F
  const DIGIT_0: Unit := 0x30
  const DIGIT_2: Unit := 0x32
  const DIGIT_8: Unit := 0x38
  const DIGIT_9: Unit := 0x39
  const EQUALS: Unit := 0x3D
  const UPPER_E: Unit := 0x45
  const UPPER_X: Unit := 0x58
  const LBRACK: Unit := 0x5B
  const BACKSLASH: Unit := 0x5C
  const RBRACK: Unit := 0x5D
  const LOWER_B: Unit := 0x62
  const LOWER_E: Unit := 0x65
  const LOWER_F: Unit := 0x66
  const LOWER_N: Unit := 0x6E
  const LOWER_R: Unit := 0x72
  const LOWER_T: Unit := 0x74
  const LOWER_U: Unit := 0x75
  const LOWER_V: Unit := 0x76
  const LOWER_X: Unit := 0x78
  const LINE_SEPARATOR: Unit := 0x2028
  const PARAGRAPH_SEPARATOR: Unit := 0x2029

  predicate IsLineTerminator(c: int)
  {
    c == CR || c == LF || IsSeparator(c)
  }

  predicate IsSeparator(c: int)
  {
    c == LINE_SEPARATOR || c == PARAGRAPH_SEPARATOR
  }

  predicate IsDecimalDigit(c: int) { 0x30 <= c <= 0x39 }

  predicate IsOctalDigit(c: int) { 0x30 <= c <= 0x37 }

  predicate IsHexDigit(c: int) { IsDecimalDigit(c) || 0x41 <= c <= 0x46 || 0x61 <= c <= 0x66 }

  /** The digit 8 passes this test too; the callers ask IsOctalDigit first. */
  function OctalValue(c: int): int
  {
    if 0x30 <= c <= 0x38 then c - 0x30 else -1
  }

  function DecimalValue(c: int): int
  {
    if 0x30 <= c <= 0x39 then c - 0x30 else -1
  }

  function HexValue(c: int): (d: int)
    ensures -1 <= d < 16 && (d >= 0 <==> IsHexDigit(c))
  {
    if 0x30 <= c <= 0x39 then c - 0x30
    else if 0x61 <= c <= 0x66 then c - 0x61 + 10
    else if 0x41 <= c <= 0x46 then c - 0x41 + 10
    else -1
  }

  /** "0123456789abcdef" */
  function HexDigit(d: int): (c: Unit)
    requires 0 <= d < 16
    ensures HexValue(c) == d
  {
    if d < 10 then 0x30 + d else 0x61 + d - 10
  }
}
