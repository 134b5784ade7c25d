/** The characters of RFC 8259, byte by byte as sections 2, 3, 6 and 7 list them. */
module Lexical {
  import opened Base
  import opened Utf8
  import opened StringLex
  import opened Numbers
  import opened ParserSpec

  // ---------- section 2: structural characters and whitespace ----------

  /** ws = *( space / horizontal tab / line feed / carriage return ) */
  predicate IsSpace(b: byte) { b == 0x20 || b == 0x09 || b == 0x0A || b == 0x0D }

  /** The parser's whitespace is the grammar's. */
  lemma SpaceAgrees(b: byte)
    ensures IsWs(b) <==> IsSpace(b)
  {}

  lemma StructuralCharacters()
    ensures LBRACKET == 0x5B && RBRACKET == 0x5D && LBRACE == 0x7B && RBRACE == 0x7D && COLON == 0x3A && COMMA == 0x2C
    ensures QUOTE == 0x22 && BACKSLASH == 0x5C && MINUS == 0x2D && PLUS == 0x2B && DOT == 0x2E
  {}

  // ---------- section 6: numbers ----------

  /** digit = %x30-39 */
  predicate IsDigitChar(b: byte) { b in {0x30, 0x31, 0x32, 0x33, 0x34, 0x35, 0x36, 0x37, 0x38, 0x39} }

  /** e = %x65 / %x45 */
  predicate IsExponentLetter(b: byte) { b == 0x65 || b == 0x45 }

  lemma NumberCharactersAgree(b: byte)
    ensures IsDigit(b) <==> IsDigitChar(b)
    ensures IsE(b) <==> IsExponentLetter(b)
  {}

  // ---------- section 7: strings ----------

  /** The eight two-character escapes and what they stand for. */
  function EscapeMeaning(letter: byte): Option<byte> {
    match letter
    case 0x22 => Some(0x22)
    case 0x5C => Some(0x5C)
    case 0x2F => Some(0x2F)
    case 0x62 => Some(0x08)
    case 0x66 => Some(0x0C)
    case 0x6E => Some(0x0A)
    case 0x72 => Some(0x0D)
    case 0x74 => Some(0x09)
    case _ => None
  }

  lemma EscapesAgree(letter: byte)
    ensures ShortEscape(letter) == EscapeMeaning(letter)
  {}

  /** HEXDIG: a digit, or a letter from A to F in either case. */
  function HexDigitOf(b: byte): Option<nat> {
    if 0x30 <= b <= 0x39 then Some(b - 0x30)
    else if b == 0x41 || b == 0x61 then Some(10)
    else if b == 0x42 || b == 0x62 then Some(11)
    else if b == 0x43 || b == 0x63 then Some(12)
    else if b == 0x44 || b == 0x64 then Some(13)
    else if b == 0x45 || b == 0x65 then Some(14)
    else if b == 0x46 || b == 0x66 then Some(15)
    else None
  }

  /** 4HEXDIG */
  predicate IsHex4(h: bytes) { |h| == 4 && forall k :: 0 <= k < 4 ==> HexDigitOf(h[k]).Some? }

  /** The number that four hexadecimal digits spell. */
  function HexNumber(h: bytes): (n: nat)
    requires IsHex4(h)
    ensures n <= 0xFFFF
  {
    ((HexDigitOf(h[0]).value * 16 + HexDigitOf(h[1]).value) * 16 + HexDigitOf(h[2]).value) * 16 + HexDigitOf(h[3]).value
  }

  lemma HexDigitAgrees(b: byte)
    ensures HexVal(b) == HexDigitOf(b)
  {}

  lemma HexAgrees(h: bytes)
    requires |h| == 4
    ensures Hex4(h, 0).Some? <==> IsHex4(h)
    ensures IsHex4(h) ==> Hex4(h, 0) == Some(HexNumber(h))
  {
    hide HexVal, HexDigitOf;
    HexDigitAgrees(h[0]);
    HexDigitAgrees(h[1]);
    HexDigitAgrees(h[2]);
    HexDigitAgrees(h[3]);
  }

  /** The two halves of a surrogate pair. */
  predicate IsHighHalf(u: nat) { 0xD800 <= u < 0xDC00 }
  predicate IsLowHalf(u: nat) { 0xDC00 <= u < 0xE000 }

  /** The character that a surrogate pair encodes: ten bits from each half, above the basic plane. */
  function PairCode(hi: nat, lo: nat): scalar
    requires IsHighHalf(hi) && IsLowHalf(lo)
  {
    0x1_0000 + 1024 * (hi % 1024) + lo % 1024
  }

  lemma PairsAgree(hi: nat, lo: nat)
    ensures IsHighSurrogate(hi) <==> IsHighHalf(hi)
    ensures IsLowSurrogate(lo) <==> IsLowHalf(lo)
    ensures IsHighHalf(hi) && IsLowHalf(lo) ==> PairValue(hi, lo) == PairCode(hi, lo)
  {}
}
