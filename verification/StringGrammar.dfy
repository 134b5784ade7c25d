/** The string grammar of section 7 of RFC 8259, and its agreement with the decoder. */
module StringGrammar {
  import opened Base
  import opened Utf8
  import opened StringLex
  import opened Lexical

  /** A `char` of the grammar; a pair of \u escapes that encodes one character is a single `SurrogatePair`. */
  datatype StrChar =
    | Unescaped(cp: scalar)
    | Short(letter: byte)
    | Unicode(h: bytes)
    | SurrogatePair(hi: bytes, lo: bytes)

  predicate WellFormedChar(c: StrChar) {
    match c
    case Unescaped(cp) => 0x20 <= cp && cp != 0x22 && cp != 0x5C
    case Short(letter) => EscapeMeaning(letter).Some?
    case Unicode(h) => IsHex4(h) && IsScalar(HexNumber(h))
    case SurrogatePair(hi, lo) =>
      IsHex4(hi) && IsHex4(lo) && IsHighHalf(HexNumber(hi)) && IsLowHalf(HexNumber(lo))
  }

  /** The source text of a character. */
  function CharText(c: StrChar): bytes {
    match c
    case Unescaped(cp) => Encode(cp)
    case Short(letter) => [0x5C, letter]
    case Unicode(h) => [0x5C, 0x75] + h
    case SurrogatePair(hi, lo) => [0x5C, 0x75] + hi + [0x5C, 0x75] + lo
  }

  /** The UTF-8 bytes that a character denotes. */
  function CharMeaning(c: StrChar): bytes
    requires WellFormedChar(c)
  {
    match c
    case Unescaped(cp) => Encode(cp)
    case Short(letter) => [EscapeMeaning(letter).value]
    case Unicode(h) => Encode(HexNumber(h))
    case SurrogatePair(hi, lo) => Encode(PairCode(HexNumber(hi), HexNumber(lo)))
  }

  predicate WellFormedChars(cs: seq<StrChar>) { forall k :: 0 <= k < |cs| ==> WellFormedChar(cs[k]) }

  function CharsText(cs: seq<StrChar>): bytes {
    if cs == [] then [] else CharText(cs[0]) + CharsText(cs[1..])
  }

  function CharsMeaning(cs: seq<StrChar>): bytes
    requires WellFormedChars(cs)
  {
    if cs == [] then [] else CharMeaning(cs[0]) + CharsMeaning(cs[1..])
  }

  // ---------- one character ----------

  lemma Hex4Slice(s: bytes, i: nat, h: bytes)
    requires |h| == 4 && At(s, i, h)
    ensures Hex4(s, i) == if IsHex4(h) then Some(HexNumber(h)) else None
  {
    HexAgrees(h);
    assert h[0] == s[i] && h[1] == s[i + 1] && h[2] == s[i + 2] && h[3] == s[i + 3];
  }

  /** The item that the decoder takes where a grammatical character stands. */
  lemma ItemComplete(s: bytes, i: nat, c: StrChar)
    requires WellFormedChar(c) && At(s, i, CharText(c))
    ensures i < |s| && s[i] != QUOTE
    ensures ItemAt(s, i) == Ok(Item(|CharText(c)|, CharMeaning(c)))
  {
    match c
    case Unescaped(cp) => ItemCompleteUnescaped(s, i, cp);
    case Short(letter) =>
      assert CharText(c)[0] == s[i] && CharText(c)[1] == s[i + 1];
    case Unicode(h) => ItemCompleteUnicode(s, i, h);
    case SurrogatePair(hi, lo) => ItemCompletePair(s, i, hi, lo);
  }

  lemma ItemCompleteUnicode(s: bytes, i: nat, h: bytes)
    requires WellFormedChar(Unicode(h)) && At(s, i, CharText(Unicode(h)))
    ensures i < |s| && s[i] == BACKSLASH
    ensures ItemAt(s, i) == Ok(Item(6, CharMeaning(Unicode(h))))
  {
    var prefix := [BACKSLASH, 0x75];
    AtConcat(s, i, prefix, h);
    assert prefix[0] == s[i] && prefix[1] == s[i + 1];
    Hex4Slice(s, i + 2, h);
  }

  lemma ItemCompletePair(s: bytes, i: nat, hi: bytes, lo: bytes)
    requires WellFormedChar(SurrogatePair(hi, lo)) && At(s, i, CharText(SurrogatePair(hi, lo)))
    ensures i < |s| && s[i] == BACKSLASH
    ensures ItemAt(s, i) == Ok(Item(12, CharMeaning(SurrogatePair(hi, lo))))
  {
    hide HexNumber, HexDigitOf, Hex4, PairCode, PairValue, Encode;
    PairsAgree(HexNumber(hi), HexNumber(lo));
    var prefix := [BACKSLASH, 0x75];
    AtConcat(s, i, prefix + hi + prefix, lo);
    AtConcat(s, i, prefix + hi, prefix);
    AtConcat(s, i, prefix, hi);
    assert prefix[0] == s[i] && prefix[1] == s[i + 1];
    assert prefix[0] == s[i + 6] && prefix[1] == s[i + 7];
    Hex4Slice(s, i + 2, hi);
    Hex4Slice(s, i + 8, lo);
  }

  lemma ItemCompleteUnescaped(s: bytes, i: nat, cp: scalar)
    requires WellFormedChar(Unescaped(cp)) && At(s, i, Encode(cp))
    ensures i < |s| && s[i] != QUOTE
    ensures ItemAt(s, i) == Ok(Item(|Encode(cp)|, Encode(cp)))
  {
    DecodeEncoded(s, i, cp);
    AtSlice(s, i, Encode(cp));
    FirstByte(cp);
    assert Encode(cp)[0] == s[i];
  }

  /** The lead byte of an encoding: the code itself for ASCII, otherwise above ASCII. */
  lemma FirstByte(cp: scalar)
    ensures if cp < 0x80 then Encode(cp) == [cp] else Encode(cp)[0] >= 0x80
  {}

  /** Every item that the decoder takes is a grammatical character. */
  lemma ItemSound(s: bytes, i: nat) returns (c: StrChar)
    requires i < |s| && s[i] != QUOTE && ItemAt(s, i).Ok?
    ensures WellFormedChar(c) && At(s, i, CharText(c))
    ensures ItemAt(s, i).value == Item(|CharText(c)|, CharMeaning(c))
  {
    if s[i] == BACKSLASH {
      if s[i + 1] != 0x75 {
        c := Short(s[i + 1]);
      } else {
        c := ItemSoundEscape(s, i);
      }
    } else if s[i] >= 0x80 {
      c := ItemSoundUtf8(s, i);
    } else {
      c := Unescaped(s[i]);
    }
  }

  lemma ItemSoundEscape(s: bytes, i: nat) returns (c: StrChar)
    requires i + 1 < |s| && s[i] == BACKSLASH && s[i + 1] == 0x75 && ItemAt(s, i).Ok?
    ensures WellFormedChar(c) && At(s, i, CharText(c))
    ensures ItemAt(s, i).value == Item(|CharText(c)|, CharMeaning(c))
  {
    if IsHighSurrogate(Hex4(s, i + 2).value) {
      c := ItemSoundPair(s, i);
    } else {
      var h := s[i + 2..i + 6];
      Hex4Slice(s, i + 2, h);
      c := Unicode(h);
    }
  }

  lemma ItemSoundPair(s: bytes, i: nat) returns (c: StrChar)
    requires i + 1 < |s| && s[i] == BACKSLASH && s[i + 1] == 0x75
    requires UnicodeEscapeAt(s, i).Ok? && IsHighSurrogate(Hex4(s, i + 2).value)
    ensures WellFormedChar(c) && At(s, i, CharText(c))
    ensures UnicodeEscapeAt(s, i).value == Item(|CharText(c)|, CharMeaning(c))
  {
    hide HexNumber, HexDigitOf, Hex4, PairCode, PairValue, Encode;
    var prefix := [BACKSLASH, 0x75];
    var hi, lo := s[i + 2..i + 6], s[i + 8..i + 12];
    Hex4Slice(s, i + 2, hi);
    Hex4Slice(s, i + 8, lo);
    PairsAgree(HexNumber(hi), HexNumber(lo));
    assert At(s, i, prefix) && At(s, i + 6, prefix);
    AtConcat(s, i, prefix, hi);
    AtConcat(s, i, prefix + hi, prefix);
    AtConcat(s, i, prefix + hi + prefix, lo);
    c := SurrogatePair(hi, lo);
  }

  lemma ItemSoundUtf8(s: bytes, i: nat) returns (c: StrChar)
    requires i < |s| && s[i] >= 0x80 && ItemAt(s, i).Ok?
    ensures WellFormedChar(c) && At(s, i, CharText(c))
    ensures ItemAt(s, i).value == Item(|CharText(c)|, CharMeaning(c))
  {
    DecodeSound(s, i);
    var cp := DecodeAt(s, i).value.cp;
    AtSlice(s, i, Encode(cp));
    FirstByte(cp);
    assert Encode(cp)[0] == s[i];
    c := Unescaped(cp);
  }

  // ---------- whole literals ----------

  /** Completeness: the content of a grammatical literal is decoded to what section 7 says it denotes. */
  lemma {:induction false} ContentComplete(s: bytes, i: nat, cs: seq<StrChar>)
    requires WellFormedChars(cs) && At(s, i, CharsText(cs))
    requires i + |CharsText(cs)| < |s| && s[i + |CharsText(cs)|] == QUOTE
    ensures ContentAt(s, i) == Ok(Content(i + |CharsText(cs)|, CharsMeaning(cs)))
    decreases |cs|
  {
    hide *;
    if cs == [] {
      ContentNil(s, i);
    } else {
      var c, rest := cs[0], cs[1..];
      CharsUncons(cs);
      var u, v := CharText(c), CharsText(rest);
      AtConcat(s, i, u, v);
      ItemComplete(s, i, c);
      ContentComplete(s, i + |u|, rest);
      ContentCons(s, i, Item(|u|, CharMeaning(c)), Content(i + |u| + |v|, CharsMeaning(rest)));
    }
  }

  lemma ContentNil(s: bytes, i: nat)
    requires i + |CharsText([])| < |s| && s[i + |CharsText([])|] == QUOTE
    ensures ContentAt(s, i) == Ok(Content(i + |CharsText([])|, CharsMeaning([])))
  {}

  lemma CharsUncons(cs: seq<StrChar>)
    requires WellFormedChars(cs) && cs != []
    ensures WellFormedChar(cs[0]) && WellFormedChars(cs[1..])
    ensures CharsText(cs) == CharText(cs[0]) + CharsText(cs[1..])
    ensures CharsMeaning(cs) == CharMeaning(cs[0]) + CharsMeaning(cs[1..])
  {}

  lemma ContentCons(s: bytes, i: nat, item: Item, rest: Content)
    requires i < |s| && s[i] != QUOTE && ItemAt(s, i) == Ok(item)
    requires i + item.len <= |s| && ContentAt(s, i + item.len) == Ok(rest)
    ensures ContentAt(s, i) == Ok(Content(rest.end, item.out + rest.out))
  {}

  lemma ContentUnfolds(s: bytes, i: nat)
    requires i <= |s|
    ensures ContentAt(s, i) ==
      if i == |s| then Err(UnexpectedEof)
      else if s[i] == QUOTE then Ok(Content(i, []))
      else match ItemAt(s, i)
        case Err(e) => Err(e)
        case Ok(item) => Prepend(item.out, ContentAt(s, i + item.len))
  {}

  /** Soundness: whatever the decoder accepts is a grammatical literal with that meaning. */
  lemma {:induction false} ContentSound(s: bytes, i: nat) returns (cs: seq<StrChar>)
    requires i <= |s| && ContentAt(s, i).Ok?
    ensures WellFormedChars(cs)
    ensures At(s, i, CharsText(cs)) && i + |CharsText(cs)| == ContentAt(s, i).value.end
    ensures ContentAt(s, i).value.out == CharsMeaning(cs)
    decreases |s| - i
  {
    hide ContentAt, ItemAt, CharText, CharMeaning, WellFormedChar;
    ContentUnfolds(s, i);
    if s[i] == QUOTE {
      cs := [];
    } else {
      var c := ItemSound(s, i);
      var n := |CharText(c)|;
      var rest := ContentSound(s, i + n);
      cs := [c] + rest;
      CharsCons(c, rest);
      AtConcat(s, i, CharText(c), CharsText(rest));
    }
  }

  lemma CharsCons(c: StrChar, rest: seq<StrChar>)
    requires WellFormedChar(c) && WellFormedChars(rest)
    ensures WellFormedChars([c] + rest)
    ensures CharsText([c] + rest) == CharText(c) + CharsText(rest)
    ensures CharsMeaning([c] + rest) == CharMeaning(c) + CharsMeaning(rest)
  {
    var cs := [c] + rest;
    assert cs[0] == c && cs[1..] == rest;
  }

  /** Decoded strings are valid UTF-8. */
  lemma {:induction false} MeaningIsUtf8(cs: seq<StrChar>)
    requires WellFormedChars(cs)
    ensures ValidUtf8(CharsMeaning(cs))
  {
    if cs != [] {
      CharMeaningIsUtf8(cs[0]);
      MeaningIsUtf8(cs[1..]);
      ValidConcat(CharMeaning(cs[0]), CharsMeaning(cs[1..]));
    }
  }

  lemma CharMeaningIsUtf8(c: StrChar)
    requires WellFormedChar(c)
    ensures ValidUtf8(CharMeaning(c))
  {
    var cp: scalar := match c
      case Unescaped(cp) => cp
      case Short(letter) => EscapeMeaning(letter).value
      case Unicode(h) => HexNumber(h)
      case SurrogatePair(hi, lo) => PairCode(HexNumber(hi), HexNumber(lo));
    assert CharMeaning(c) == Encode(cp) == EncodeAll([cp]);
    ValidIffEncoding(CharMeaning(c));
  }
}
