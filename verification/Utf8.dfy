/** The UTF-8 codec (RFC 3629): json__utf8_decode, json__encode_utf8, json__valid_utf8. */
module Utf8 {
  import opened Base

  /** A Unicode scalar value: any code point that is not a surrogate. */
  predicate IsScalar(cp: int) {
    0 <= cp < 0xD800 || 0xE000 <= cp <= 0x10FFFF
  }

  type scalar = cp: int | 0 <= cp < 0xD800 || 0xE000 <= cp <= 0x10FFFF

  predicate IsTail(b: byte) { 0x80 <= b <= 0xBF }

  /** The UTF8-char production of section 4 of RFC 3629. */
  predicate IsUtf8Char(u: bytes) {
    || (|u| == 1 && u[0] <= 0x7F)
    || (|u| == 2 && 0xC2 <= u[0] <= 0xDF && IsTail(u[1]))
    || (|u| == 3 && IsTail(u[2]) && (
          || (u[0] == 0xE0 && 0xA0 <= u[1] <= 0xBF)
          || (0xE1 <= u[0] <= 0xEC && IsTail(u[1]))
          || (u[0] == 0xED && 0x80 <= u[1] <= 0x9F)
          || (0xEE <= u[0] <= 0xEF && IsTail(u[1]))))
    || (|u| == 4 && IsTail(u[2]) && IsTail(u[3]) && (
          || (u[0] == 0xF0 && 0x90 <= u[1] <= 0xBF)
          || (0xF1 <= u[0] <= 0xF3 && IsTail(u[1]))
          || (u[0] == 0xF4 && 0x80 <= u[1] <= 0x8F)))
  }

  /** The continuation byte that carries the low six bits of `n`. */
  function Tail(n: nat): byte { 0x80 + n % 64 }

  /** The shortest-form encoding of a scalar value (section 3 of RFC 3629). */
  function Encode(cp: scalar): (u: bytes)
    ensures 1 <= |u| <= 4
  {
    if cp < 0x80 then var b: byte := cp; [b]
    else if cp < 0x800 then var b: byte := 0xC0 + cp / 64; [b, Tail(cp)]
    else if cp < 0x10000 then var b: byte := 0xE0 + cp / 4096; [b, Tail(cp / 64), Tail(cp)]
    else var b: byte := 0xF0 + cp / 262144; [b, Tail(cp / 4096), Tail(cp / 64), Tail(cp)]
  }

  /** What the same arithmetic gives for any code point: surrogates get three bytes. */
  function EncodeCode(cp: nat): bytes
    requires cp <= 0x10FFFF
  {
    if IsScalar(cp) then Encode(cp) else var b: byte := 0xE0 + cp / 4096; [b, Tail(cp / 64), Tail(cp)]
  }

  /** json__encode_utf8: stores the encoding at buf[at..]; answers 0 above 0x10FFFF. */
  method EncodeInto(cp: nat, buf: array<byte>, at: nat) returns (n: nat)
    requires cp <= 0x10FFFF ==> at + |EncodeCode(cp)| <= buf.Length
    modifies buf
    ensures cp > 0x10FFFF ==> n == 0 && buf[..] == old(buf[..])
    ensures cp <= 0x10FFFF ==>
      n == |EncodeCode(cp)| && buf[..] == old(buf[..at]) + EncodeCode(cp) + old(buf[at + |EncodeCode(cp)|..])
  {
    if cp < 0x80 {
      buf[at] := cp;
      return 1;
    } else if cp < 0x800 {
      buf[at] := 0xC0 + cp / 64;
      buf[at + 1] := Tail(cp);
      return 2;
    } else if cp < 0x10000 {
      buf[at] := 0xE0 + cp / 4096;
      buf[at + 1] := Tail(cp / 64);
      buf[at + 2] := Tail(cp);
      return 3;
    } else if cp <= 0x10FFFF {
      buf[at] := 0xF0 + cp / 262144;
      buf[at + 1] := Tail(cp / 4096);
      buf[at + 2] := Tail(cp / 64);
      buf[at + 3] := Tail(cp);
      return 4;
    }
    return 0;
  }

  datatype Decoded = Decoded(cp: scalar, count: nat)

  /** Length announced by a lead byte, the bits it contributes, and the least code of that length. */
  datatype Lead = Lead(count: nat, bits: nat, minimum: nat)

  function LeadOf(b: byte): Option<Lead> {
    if b < 0x80 then Some(Lead(1, b, 0))
    else if 0xC2 <= b <= 0xDF then Some(Lead(2, b % 32, 0x80))
    else if 0xE0 <= b <= 0xEF then Some(Lead(3, b % 16, 0x800))
    else if 0xF0 <= b <= 0xF4 then Some(Lead(4, b % 8, 0x10000))
    else None
  }

  /** Folds the continuation bytes s[k..e] into `code`; None when one is not a continuation byte. */
  function Continue(s: bytes, k: nat, e: nat, code: nat): Option<nat>
    requires k <= e <= |s|
    decreases e - k
  {
    if k == e then Some(code)
    else if !IsTail(s[k]) then None
    else Continue(s, k + 1, e, code * 64 + s[k] % 64)
  }

  /** What json__utf8_decode answers on s[i..]. */
  function DecodeAt(s: bytes, i: nat): Option<Decoded>
    requires i <= |s|
  {
    if i == |s| then None
    else match LeadOf(s[i])
      case None => None
      case Some(lead) =>
        if i + lead.count > |s| then None
        else match Continue(s, i + 1, i + lead.count, lead.bits)
          case None => None
          case Some(code) =>
            if code < lead.minimum || !IsScalar(code) then None
            else Some(Decoded(code, lead.count))
  }

  /** json__utf8_decode: the loop over the continuation bytes computes DecodeAt. */
  method Utf8Decode(s: bytes, i: nat) returns (r: Option<Decoded>)
    requires i <= |s|
    ensures r == DecodeAt(s, i)
  {
    if i == |s| { return None; }
    var first := s[i];
    if first < 0x80 { return Some(Decoded(first, 1)); }
    var count: nat, code: nat, minimum: nat;
    if 0xC2 <= first <= 0xDF { count, code, minimum := 2, first % 32, 0x80; }
    else if 0xE0 <= first <= 0xEF { count, code, minimum := 3, first % 16, 0x800; }
    else if 0xF0 <= first <= 0xF4 { count, code, minimum := 4, first % 8, 0x10000; }
    else { return None; }
    if count > |s| - i { return None; }
    ghost var start := code;
    var k := 1;
    while k < count
      invariant 1 <= k <= count
      invariant Continue(s, i + 1, i + count, start) == Continue(s, i + k, i + count, code)
    {
      var next := s[i + k];
      if next / 64 != 2 { return None; }
      code := code * 64 + next % 64;
      k := k + 1;
    }
    if code < minimum || code > 0x10FFFF || 0xD800 <= code <= 0xDFFF { return None; }
    return Some(Decoded(code, count));
  }

  /** Encodings written digit by digit in base 64. */
  lemma Encode2(a: nat, b: nat)
    requires 2 <= a < 32 && b < 64
    ensures Encode(a * 64 + b) == [0xC0 + a, 0x80 + b]
  {}

  lemma Encode3(a: nat, b: nat, c: nat)
    requires a < 16 && b < 64 && c < 64
    requires 0x800 <= (a * 64 + b) * 64 + c && IsScalar((a * 64 + b) * 64 + c)
    ensures Encode((a * 64 + b) * 64 + c) == [0xE0 + a, 0x80 + b, 0x80 + c]
  {
    var cp := (a * 64 + b) * 64 + c;
    assert cp / 64 == a * 64 + b && cp % 64 == c;
    assert cp / 4096 == a;
  }

  lemma Encode4(a: nat, b: nat, c: nat, d: nat)
    requires a < 8 && b < 64 && c < 64 && d < 64
    requires 0x10000 <= ((a * 64 + b) * 64 + c) * 64 + d <= 0x10FFFF
    ensures Encode(((a * 64 + b) * 64 + c) * 64 + d) == [0xF0 + a, 0x80 + b, 0x80 + c, 0x80 + d]
  {
    var cp := ((a * 64 + b) * 64 + c) * 64 + d;
    assert cp / 64 == (a * 64 + b) * 64 + c && cp % 64 == d;
    assert cp / 4096 == a * 64 + b;
    assert cp / 262144 == a;
  }

  /** The code that three (two, one) continuation bytes after `bits` spell. */
  lemma ContinueUnrolled(s: bytes, i: nat, n: nat, bits: nat)
    requires 2 <= n <= 4 && i + n <= |s|
    ensures Continue(s, i + 1, i + n, bits) ==
      if !IsTail(s[i + 1]) then None
      else if n == 2 then Some(bits * 64 + s[i + 1] % 64)
      else if !IsTail(s[i + 2]) then None
      else if n == 3 then Some((bits * 64 + s[i + 1] % 64) * 64 + s[i + 2] % 64)
      else if !IsTail(s[i + 3]) then None
      else Some(((bits * 64 + s[i + 1] % 64) * 64 + s[i + 2] % 64) * 64 + s[i + 3] % 64)
  {
    if IsTail(s[i + 1]) && n >= 3 && IsTail(s[i + 2]) {
      assert Continue(s, i + 2, i + n, bits * 64 + s[i + 1] % 64)
          == Continue(s, i + 3, i + n, (bits * 64 + s[i + 1] % 64) * 64 + s[i + 2] % 64);
    }
  }

  /** The base-64 digits of a scalar value, which are the payloads of its encoding. */
  lemma EncodingDigits(cp: scalar) returns (a: nat, b: nat, c: nat, d: nat)
    ensures a < 5 && b < 64 && c < 64 && d < 64
    ensures cp == ((a * 64 + b) * 64 + c) * 64 + d
    ensures 0x80 <= cp < 0x800 ==> Encode(cp) == [0xC0 + c, 0x80 + d] && a == b == 0 && 2 <= c < 32
    ensures 0x800 <= cp < 0x10000 ==> Encode(cp) == [0xE0 + b, 0x80 + c, 0x80 + d] && a == 0 && b < 16
    ensures 0x10000 <= cp ==> Encode(cp) == [0xF0 + a, 0x80 + b, 0x80 + c, 0x80 + d]
  {
    a, b, c, d := cp / 262144, cp / 4096 % 64, cp / 64 % 64, cp % 64;
    assert cp / 64 == cp / 4096 * 64 + c;
    assert cp / 4096 == a * 64 + b;
  }

  /** A surrogate gets the three bytes that its digits would have in the same scheme. */
  lemma SurrogateDigits(cp: nat) returns (c: nat, d: nat)
    requires 0xD800 <= cp <= 0xDFFF
    ensures 32 <= c < 64 && d < 64 && cp == (13 * 64 + c) * 64 + d && EncodeCode(cp) == [0xE0 + 13, 0x80 + c, 0x80 + d]
  {
    c, d := cp / 64 % 64, cp % 64;
  }

  /** US-ASCII characters encode as themselves. */
  lemma AsciiIsItself(cp: scalar)
    ensures if cp < 0x80 then Encode(cp) == [cp] else |Encode(cp)| >= 2 && Encode(cp)[0] >= 0x80
  {}

  /** The decoder inverts the encoder wherever an encoded scalar value occurs. */
  lemma DecodeEncoded(s: bytes, i: nat, cp: scalar)
    requires At(s, i, Encode(cp))
    ensures DecodeAt(s, i) == Some(Decoded(cp, |Encode(cp)|))
  {
    var u := Encode(cp);
    assert u[0] == s[i] && (|u| > 1 ==> u[1] == s[i + 1]);
    assert (|u| > 2 ==> u[2] == s[i + 2]) && (|u| > 3 ==> u[3] == s[i + 3]);
    if cp >= 0x80 {
      var a, b, c, d := EncodingDigits(cp);
      if cp < 0x800 {
        DecodeBytes2(s, i, c, d);
      } else if cp < 0x10000 {
        DecodeBytes3(s, i, b, c, d);
      } else {
        DecodeBytes4(s, i, a, b, c, d);
      }
    }
  }

  /** What the decoder computes from two, three and four bytes given by their payload bits. */
  lemma DecodeBytes2(s: bytes, i: nat, a: nat, b: nat)
    requires i + 2 <= |s| && 2 <= a < 32 && b < 64
    requires s[i] == 0xC0 + a && s[i + 1] == 0x80 + b
    ensures DecodeAt(s, i) == Some(Decoded(a * 64 + b, 2))
  {
    ContinueUnrolled(s, i, 2, a);
  }

  lemma DecodeBytes3(s: bytes, i: nat, a: nat, b: nat, c: nat)
    requires i + 3 <= |s| && a < 16 && b < 64 && c < 64
    requires s[i] == 0xE0 + a && s[i + 1] == 0x80 + b && s[i + 2] == 0x80 + c
    ensures var cp := (a * 64 + b) * 64 + c;
      DecodeAt(s, i) == if cp < 0x800 || !IsScalar(cp) then None else Some(Decoded(cp, 3))
  {
    ContinueUnrolled(s, i, 3, a);
  }

  lemma DecodeBytes4(s: bytes, i: nat, a: nat, b: nat, c: nat, d: nat)
    requires i + 4 <= |s| && a < 5 && b < 64 && c < 64 && d < 64
    requires s[i] == 0xF0 + a && s[i + 1] == 0x80 + b && s[i + 2] == 0x80 + c && s[i + 3] == 0x80 + d
    ensures var cp := ((a * 64 + b) * 64 + c) * 64 + d;
      DecodeAt(s, i) == if cp < 0x10000 || cp > 0x10FFFF then None else Some(Decoded(cp, 4))
  {
    ContinueUnrolled(s, i, 4, a);
  }

  /** Each UTF8-char of RFC 3629 is the encoding of a scalar value. */
  lemma Utf8CharIsEncoding(u: bytes) returns (cp: scalar)
    requires IsUtf8Char(u)
    ensures Encode(cp) == u
  {
    if |u| == 1 {
      cp := u[0];
    } else if |u| == 2 {
      var a: nat, b: nat := u[0] - 0xC0, u[1] - 0x80;
      Encode2(a, b);
      cp := a * 64 + b;
    } else if |u| == 3 {
      var a: nat, b: nat, c: nat := u[0] - 0xE0, u[1] - 0x80, u[2] - 0x80;
      Encode3(a, b, c);
      cp := (a * 64 + b) * 64 + c;
    } else {
      var a: nat, b: nat, c: nat, d: nat := u[0] - 0xF0, u[1] - 0x80, u[2] - 0x80, u[3] - 0x80;
      Encode4(a, b, c, d);
      cp := ((a * 64 + b) * 64 + c) * 64 + d;
    }
  }

  /** An accepted multi-byte sequence consists of continuation bytes after its lead byte. */
  lemma AcceptedTails(s: bytes, i: nat)
    requires i <= |s|
    requires DecodeAt(s, i).Some?
    ensures LeadOf(s[i]).Some? && i + LeadOf(s[i]).value.count <= |s|
    ensures DecodeAt(s, i).value.count == LeadOf(s[i]).value.count
    ensures forall k :: i < k < i + LeadOf(s[i]).value.count ==> IsTail(s[k])
  {
    var n := LeadOf(s[i]).value.count;
    if n >= 2 { ContinueUnrolled(s, i, n, LeadOf(s[i]).value.bits); }
  }

  /** Whatever the decoder accepts is the encoding of the scalar value it returns. */
  lemma DecodeSound(s: bytes, i: nat)
    requires i <= |s|
    requires DecodeAt(s, i).Some?
    ensures At(s, i, Encode(DecodeAt(s, i).value.cp))
    ensures |Encode(DecodeAt(s, i).value.cp)| == DecodeAt(s, i).value.count
  {
    AcceptedTails(s, i);
    if 0xC2 <= s[i] <= 0xDF { DecodeSound2(s, i); }
    else if 0xE0 <= s[i] <= 0xEF { DecodeSound3(s, i); }
    else if 0xF0 <= s[i] { DecodeSound4(s, i); }
  }

  lemma DecodeSound2(s: bytes, i: nat)
    requires i + 2 <= |s| && 0xC2 <= s[i] <= 0xDF && IsTail(s[i + 1])
    requires DecodeAt(s, i).Some?
    ensures s[i..i + 2] == Encode(DecodeAt(s, i).value.cp)
  {
    var a: nat, b: nat := s[i] - 0xC0, s[i + 1] - 0x80;
    DecodeBytes2(s, i, a, b);
    Encode2(a, b);
  }

  lemma DecodeSound3(s: bytes, i: nat)
    requires i + 3 <= |s| && 0xE0 <= s[i] <= 0xEF && IsTail(s[i + 1]) && IsTail(s[i + 2])
    requires DecodeAt(s, i).Some?
    ensures s[i..i + 3] == Encode(DecodeAt(s, i).value.cp)
  {
    var a: nat, b: nat, c: nat := s[i] - 0xE0, s[i + 1] - 0x80, s[i + 2] - 0x80;
    DecodeBytes3(s, i, a, b, c);
    Encode3(a, b, c);
  }

  lemma DecodeSound4(s: bytes, i: nat)
    requires i + 4 <= |s| && 0xF0 <= s[i] <= 0xF4
    requires IsTail(s[i + 1]) && IsTail(s[i + 2]) && IsTail(s[i + 3])
    requires DecodeAt(s, i).Some?
    ensures s[i..i + 4] == Encode(DecodeAt(s, i).value.cp)
  {
    var a: nat, b: nat, c: nat, d: nat := s[i] - 0xF0, s[i + 1] - 0x80, s[i + 2] - 0x80, s[i + 3] - 0x80;
    DecodeBytes4(s, i, a, b, c, d);
    Encode4(a, b, c, d);
  }

  /** Encodings are UTF8-chars of RFC 3629: shortest form, no surrogate, nothing above 0x10FFFF. */
  lemma EncodingIsUtf8Char(cp: scalar)
    ensures IsUtf8Char(Encode(cp))
  {
    if 0x800 <= cp < 0x10000 {
      assert cp / 64 % 64 == cp / 64 - cp / 4096 * 64;
    } else if cp >= 0x10000 {
      assert cp / 4096 % 64 == cp / 4096 - cp / 262144 * 64;
    }
  }

  /** json__utf8_decode accepts exactly the sequences of section 4 of RFC 3629. */
  lemma DecodeAcceptsExactly(s: bytes, i: nat)
    requires i <= |s|
    ensures DecodeAt(s, i).Some? <==> exists n :: i < n <= |s| && IsUtf8Char(s[i..n])
    ensures DecodeAt(s, i).Some? ==> IsUtf8Char(s[i..i + DecodeAt(s, i).value.count])
  {
    if DecodeAt(s, i).Some? {
      DecodeSound(s, i);
      EncodingIsUtf8Char(DecodeAt(s, i).value.cp);
      assert IsUtf8Char(s[i..i + DecodeAt(s, i).value.count]);
    }
    if n :| i < n <= |s| && IsUtf8Char(s[i..n]) {
      var cp := Utf8CharIsEncoding(s[i..n]);
      DecodeEncoded(s, i, cp);
    }
  }

  /** An encoded code point is accepted by the decoder exactly when it is a scalar value. */
  lemma EncodedCodeAccepted(s: bytes, i: nat, cp: nat)
    requires cp <= 0x10FFFF && At(s, i, EncodeCode(cp))
    ensures DecodeAt(s, i).Some? <==> IsScalar(cp)
  {
    if IsScalar(cp) {
      DecodeEncoded(s, i, cp);
    } else {
      var u := EncodeCode(cp);
      assert u[0] == s[i] && u[1] == s[i + 1] && u[2] == s[i + 2];
      var b, c, d := cp / 4096, cp / 64 % 64, cp % 64;
      assert cp == (b * 64 + c) * 64 + d;
      DecodeBytes3(s, i, b, c, d);
    }
  }

  // ---------- whole strings ----------

  /** s[i..] is a concatenation of well-formed UTF-8 characters. */
  predicate ValidFrom(s: bytes, i: nat)
    requires i <= |s|
    decreases |s| - i
  {
    i == |s| ||
    (DecodeAt(s, i).Some? && 0 < DecodeAt(s, i).value.count <= |s| - i && ValidFrom(s, i + DecodeAt(s, i).value.count))
  }

  predicate ValidUtf8(s: bytes) { ValidFrom(s, 0) }

  /** json__valid_utf8. */
  method IsValidUtf8(s: bytes) returns (r: bool)
    ensures r == ValidUtf8(s)
  {
    var offset := 0;
    while offset < |s|
      invariant offset <= |s|
      invariant ValidUtf8(s) == ValidFrom(s, offset)
    {
      var d := Utf8Decode(s, offset);
      if d.None? { return false; }
      DecodeSound(s, offset);
      offset := offset + d.value.count;
    }
    return true;
  }

  function EncodeAll(cps: seq<scalar>): bytes {
    if cps == [] then [] else Encode(cps[0]) + EncodeAll(cps[1..])
  }

  /** The scalar values that the valid string s[i..] spells. */
  function DecodeAll(s: bytes, i: nat): seq<scalar>
    requires i <= |s| && ValidFrom(s, i)
    decreases |s| - i
  {
    if i == |s| then [] else [DecodeAt(s, i).value.cp] + DecodeAll(s, i + DecodeAt(s, i).value.count)
  }

  /** Encoding the decoded prefix of a string gives back its bytes. */
  lemma {:induction false} EncodeDecoded(s: bytes, i: nat)
    requires i <= |s| && ValidFrom(s, i)
    ensures EncodeAll(DecodeAll(s, i)) == s[i..]
    decreases |s| - i
  {
    if i < |s| {
      var d := DecodeAt(s, i).value;
      DecodeSound(s, i);
      EncodeDecoded(s, i + d.count);
      EncodeAllCons(s, i, d.cp, DecodeAll(s, i + d.count));
    }
  }

  lemma EncodeAllCons(s: bytes, i: nat, cp: scalar, rest: seq<scalar>)
    requires At(s, i, Encode(cp))
    requires EncodeAll(rest) == s[i + |Encode(cp)|..]
    ensures EncodeAll([cp] + rest) == s[i..]
  {
    var u, cps := Encode(cp), [cp] + rest;
    assert cps[0] == cp && cps[1..] == rest;
    assert s[i..] == s[i..i + |u|] + s[i + |u|..];
  }

  /** Any text that ends in an encoding is valid from there on, and decodes to the encoded values. */
  lemma {:induction false} DecodeEncodedAll(s: bytes, i: nat, cps: seq<scalar>)
    requires i <= |s| && s[i..] == EncodeAll(cps)
    ensures ValidFrom(s, i) && DecodeAll(s, i) == cps
    decreases |cps|
  {
    hide Encode, DecodeAt;
    if cps != [] {
      var u := Encode(cps[0]);
      SplitTail(s, i, u, EncodeAll(cps[1..]));
      DecodeEncoded(s, i, cps[0]);
      DecodeEncodedAll(s, i + |u|, cps[1..]);
    }
  }

  lemma SplitTail(s: bytes, i: nat, u: bytes, rest: bytes)
    requires i <= |s| && s[i..] == u + rest
    ensures At(s, i, u) && i + |u| <= |s| && s[i + |u|..] == rest
  {
    assert s[i..][|u|..] == s[i + |u|..];
    forall k | 0 <= k < |u| ensures u[k] == s[i + k] { assert s[i..][k] == s[i + k]; }
  }

  /** The valid strings are exactly the encodings of sequences of scalar values. */
  lemma ValidIffEncoding(s: bytes)
    ensures ValidUtf8(s) <==> exists cps: seq<scalar> :: s == EncodeAll(cps)
  {
    assert s[0..] == s;
    if ValidUtf8(s) {
      EncodeDecoded(s, 0);
      assert s == EncodeAll(DecodeAll(s, 0));
    }
    if cps: seq<scalar> :| s == EncodeAll(cps) {
      DecodeEncodedAll(s, 0, cps);
    }
  }

  lemma {:induction false} EncodeAllConcat(a: seq<scalar>, b: seq<scalar>)
    ensures EncodeAll(a + b) == EncodeAll(a) + EncodeAll(b)
  {
    hide Encode;
    if a == [] {
      assert a + b == b;
    } else {
      EncodeAllConcat(a[1..], b);
      assert (a + b)[1..] == a[1..] + b;
    }
  }

  /** Valid strings are closed under concatenation. */
  lemma ValidConcat(a: bytes, b: bytes)
    requires ValidUtf8(a) && ValidUtf8(b)
    ensures ValidUtf8(a + b)
  {
    assert a[0..] == a && b[0..] == b;
    EncodeDecoded(a, 0);
    EncodeDecoded(b, 0);
    EncodeAllConcat(DecodeAll(a, 0), DecodeAll(b, 0));
    ValidIffEncoding(a + b);
  }
}
