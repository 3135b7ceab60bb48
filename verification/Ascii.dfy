/** The bytes the text formats give a meaning to, and hex digits (src/prim/str.cpp). */
module Ascii {
  import opened Utf8

  const TAB: byte := 0x09
  const LF: byte := 0x0A
  const CR: byte := 0x0D
  const SPACE: byte := 0x20
  const QUOTE: byte := 0x22
  const PERCENT: byte := 0x25
  const PLUS: byte := 0x2B
  const COMMA: byte := 0x2C
  const MINUS: byte := 0x2D
  const DOT: byte := 0x2E
  const SLASH: byte := 0x2F
  const ZERO: byte := 0x30
  const COLON: byte := 0x3A
  const SEMICOLON: byte := 0x3B
  const EQUALS: byte := 0x3D
  const AT: byte := 0x40
  const LBRACKET: byte := 0x5B
  const BACKSLASH: byte := 0x5C
  const RBRACKET: byte := 0x5D
  const LBRACE: byte := 0x7B
  const RBRACE: byte := 0x7D

  predicate IsDigit(b: byte) { 0x30 <= b <= 0x39 }

  /** A hex digit's value in either case; -1 for any other byte. */
  function HexDigit(b: byte): (d: int)
    ensures -1 <= d < 16
  {
    if IsDigit(b) then b - 0x30
    else if 0x61 <= b <= 0x66 then b - 0x61 + 10
    else if 0x41 <= b <= 0x46 then b - 0x41 + 10
    else -1
  }

  function LowerHex(d: nat): (b: byte)
    requires d < 16
    ensures HexDigit(b) == d && (IsDigit(b) || 0x61 <= b <= 0x66)
  {
    if d < 10 then 0x30 + d else 0x61 + (d - 10)
  }

  function UpperHex(d: nat): (b: byte)
    requires d < 16
    ensures HexDigit(b) == d && (IsDigit(b) || 0x41 <= b <= 0x46)
  {
    if d < 10 then 0x30 + d else 0x41 + (d - 10)
  }

  const LOWER_DIGITS: bytes := [0x30, 0x31, 0x32, 0x33, 0x34, 0x35, 0x36, 0x37, 0x38, 0x39, 0x61, 0x62, 0x63, 0x64, 0x65, 0x66]
  const UPPER_DIGITS: bytes := [0x30, 0x31, 0x32, 0x33, 0x34, 0x35, 0x36, 0x37, 0x38, 0x39, 0x41, 0x42, 0x43, 0x44, 0x45, 0x46]

  /** A hex digit's two forms. */
  predicate SpellsDigit(h: byte, d: nat) { d < 16 && (h == LOWER_DIGITS[d] || h == UPPER_DIGITS[d]) }

  lemma DigitIs(h: byte, d: nat)
    ensures SpellsDigit(h, d) <==> HexDigit(h) == d
  {
  }
}
