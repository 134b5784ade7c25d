/** Bytes, error codes and the small vocabulary every other module shares. */
module Base {

  /** An 8-bit unsigned value; texts are sequences of these, as in the C source. */
  type byte = x: int | 0 <= x < 256

  type bytes = seq<byte>

  datatype Option<+T> = None | Some(value: T)

  /** The error codes of the library (JSON_OK is `Ok`). */
  datatype Error =
    | NullParam
    | Oom
    | InvalidJson
    | UnexpectedEof
    | DepthExceeded
    | InvalidString
    | InvalidNumber
    | InvalidUtf8
    | Overflow
    | NotFound
    | TypeMismatch
    | BufferTooSmall
    | NodeLimit

  datatype Result<+T> = Ok(value: T) | Err(error: Error)

  const SIZE_MAX: nat := 0xFFFF_FFFF_FFFF_FFFF
  const UINT32_MAX: nat := 0xFFFF_FFFF
  const INT64_MIN: int := -0x8000_0000_0000_0000
  const INT64_MAX: int := 0x7FFF_FFFF_FFFF_FFFF

  const QUOTE: byte := 0x22
  const BACKSLASH: byte := 0x5C
  const SLASH: byte := 0x2F
  const COMMA: byte := 0x2C
  const COLON: byte := 0x3A
  const LBRACKET: byte := 0x5B
  const RBRACKET: byte := 0x5D
  const LBRACE: byte := 0x7B
  const RBRACE: byte := 0x7D
  const MINUS: byte := 0x2D
  const PLUS: byte := 0x2B
  const DOT: byte := 0x2E
  const NEWLINE: byte := 0x0A
  const SPACE: byte := 0x20

  /** `u` occurs in `s` at offset `i`. */
  predicate At(s: bytes, i: nat, u: bytes) {
    i + |u| <= |s| && forall k :: 0 <= k < |u| ==> u[k] == s[i + k]
  }

  /** An occurrence is a slice. */
  lemma AtSlice(s: bytes, i: nat, u: bytes)
    requires At(s, i, u)
    ensures s[i..i + |u|] == u
  {}

  lemma AtByte(s: bytes, i: nat, b: byte)
    ensures At(s, i, [b]) <==> i < |s| && s[i] == b
  {
    if At(s, i, [b]) { assert [b][0] == s[i]; }
  }

  /** The first byte of an occurrence. */
  lemma AtHead(s: bytes, i: nat, u: bytes)
    requires At(s, i, u) && u != []
    ensures i < |s| && s[i] == u[0]
  {}

  lemma AtNothing(s: bytes, i: nat)
    ensures At(s, i, []) <==> i <= |s|
  {}

  /** An occurrence lies inside the text. */
  lemma AtBounds(s: bytes, i: nat, u: bytes)
    requires At(s, i, u)
    ensures i + |u| <= |s|
  {}

  /** An occurrence of a concatenation is two adjacent occurrences. */
  lemma AtConcat(s: bytes, i: nat, u: bytes, v: bytes)
    ensures At(s, i, u + v) <==> At(s, i, u) && At(s, i + |u|, v)
  {
    var w := u + v;
    if At(s, i, w) {
      forall k | 0 <= k < |u| ensures u[k] == s[i + k] { assert w[k] == u[k]; }
      forall k | 0 <= k < |v| ensures v[k] == s[i + |u| + k] { assert w[|u| + k] == v[k]; }
    }
  }
}
