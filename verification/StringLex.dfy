/** String literals: the two-pass decoder json__parse_string, against a one-pass specification. */
module StringLex {
  import opened Base
  import opened Utf8
  import opened Fnv

  /** Value of a hexadecimal digit (json__hex_val). */
  function HexVal(c: byte): Option<nat> {
    if 0x30 <= c <= 0x39 then Some(c - 0x30)
    else if 0x61 <= c <= 0x66 then Some(c - 0x61 + 10)
    else if 0x41 <= c <= 0x46 then Some(c - 0x41 + 10)
    else None
  }

  /** The 16-bit value of four hexadecimal digits at s[i..] (json__parse_hex4). */
  function Hex4(s: bytes, i: nat): (r: Option<nat>)
    ensures r.Some? ==> i + 4 <= |s| && r.value <= 0xFFFF
  {
    if i + 4 > |s| then None
    else
      match (HexVal(s[i]), HexVal(s[i + 1]), HexVal(s[i + 2]), HexVal(s[i + 3]))
      case (Some(a), Some(b), Some(c), Some(d)) => Some(a * 4096 + b * 256 + c * 16 + d)
      case _ => None
  }

  /** The byte that a two-character escape stands for. */
  function ShortEscape(c: byte): Option<byte> {
    if c == QUOTE || c == BACKSLASH || c == SLASH then Some(c)
    else if c == 0x62 then Some(0x08)
    else if c == 0x66 then Some(0x0C)
    else if c == 0x6E then Some(0x0A)
    else if c == 0x72 then Some(0x0D)
    else if c == 0x74 then Some(0x09)
    else None
  }

  predicate IsHighSurrogate(u: nat) { 0xD800 <= u <= 0xDBFF }
  predicate IsLowSurrogate(u: nat) { 0xDC00 <= u <= 0xDFFF }

  /** The supplementary character of a surrogate pair. */
  function PairValue(hi: nat, lo: nat): scalar
    requires IsHighSurrogate(hi) && IsLowSurrogate(lo)
  {
    0x10000 + (hi - 0xD800) * 0x400 + (lo - 0xDC00)
  }

  /** One source character: its length in the source and the bytes it contributes. */
  datatype Item = Item(len: nat, out: bytes)

  /** The \u escape whose backslash is at s[i]. */
  function UnicodeEscapeAt(s: bytes, i: nat): (r: Result<Item>)
    requires i + 1 < |s|
    ensures r.Ok? ==> 6 <= r.value.len && i + r.value.len <= |s|
  {
    match Hex4(s, i + 2)
    case None => Err(InvalidString)
    case Some(hi) =>
      if IsHighSurrogate(hi) then
        if i + 7 >= |s| || s[i + 6] != BACKSLASH || s[i + 7] != 0x75 then Err(InvalidString)
        else match Hex4(s, i + 8)
          case None => Err(InvalidString)
          case Some(lo) =>
            if !IsLowSurrogate(lo) then Err(InvalidString) else Ok(Item(12, Encode(PairValue(hi, lo))))
      else if IsLowSurrogate(hi) then Err(InvalidString)
      else Ok(Item(6, Encode(hi)))
  }

  /** The source character at s[i], which is not the closing quote. */
  function ItemAt(s: bytes, i: nat): (r: Result<Item>)
    requires i < |s| && s[i] != QUOTE
    ensures r.Ok? ==> 1 <= r.value.len && i + r.value.len <= |s|
  {
    var c := s[i];
    if c == BACKSLASH then
      if i + 1 >= |s| then Err(UnexpectedEof)
      else if s[i + 1] == 0x75 then UnicodeEscapeAt(s, i)
      else match ShortEscape(s[i + 1])
        case Some(b) => Ok(Item(2, [b]))
        case None => Err(InvalidString)
    else if c < 0x20 then Err(InvalidString)
    else if c >= 0x80 then
      match DecodeAt(s, i)
      case None => Err(InvalidUtf8)
      case Some(d) => if 0 < d.count <= |s| - i then Ok(Item(d.count, Encode(d.cp))) else Err(InvalidUtf8)
    else Ok(Item(1, [c]))
  }

  /** Decoded content of a string literal, and the position of its closing quote. */
  datatype Content = Content(end: nat, out: bytes)

  /** The content that starts at s[i], up to the closing quote. */
  function ContentAt(s: bytes, i: nat): (r: Result<Content>)
    requires i <= |s|
    ensures r.Ok? ==> i <= r.value.end < |s| && s[r.value.end] == QUOTE
    decreases |s| - i
  {
    if i == |s| then Err(UnexpectedEof)
    else if s[i] == QUOTE then Ok(Content(i, []))
    else match ItemAt(s, i)
      case Err(e) => Err(e)
      case Ok(item) => Prepend(item.out, ContentAt(s, i + item.len))
  }

  function Prepend(out: bytes, r: Result<Content>): Result<Content> {
    match r
    case Err(e) => Err(e)
    case Ok(c) => Ok(Content(c.end, out + c.out))
  }

  /** A string literal whose opening quote is just before s[i]: its value and the position after it. */
  datatype Literal = Literal(value: bytes, next: nat)

  function StringAt(s: bytes, i: nat, maxLen: nat): (r: Result<Literal>)
    requires i <= |s|
    ensures r.Ok? ==> i < r.value.next <= |s|
  {
    match ContentAt(s, i)
    case Err(e) => Err(e)
    case Ok(c) => if |c.out| > maxLen then Err(Overflow) else Ok(Literal(c.out, c.end + 1))
  }

  // ---------- pass 1: measure and validate ----------

  lemma PrependPrepend(a: bytes, b: bytes, r: Result<Content>)
    ensures Prepend(a, Prepend(b, r)) == Prepend(a + b, r)
  {
    if r.Ok? { assert a + (b + r.value.out) == a + b + r.value.out; }
  }

  /** One step of a scan that has already produced `acc`. */
  lemma ContentStep(s: bytes, i: nat, acc: bytes)
    requires i < |s| && s[i] != QUOTE
    ensures Prepend(acc, ContentAt(s, i)) ==
      match ItemAt(s, i)
      case Err(e) => Err(e)
      case Ok(item) => Prepend(acc + item.out, ContentAt(s, i + item.len))
  {
    if ItemAt(s, i).Ok? {
      var item := ItemAt(s, i).value;
      PrependPrepend(acc, item.out, ContentAt(s, i + item.len));
    }
  }

  /** Length, closing quote, and (for a literal without escapes) the running hash. */
  datatype Scan = Scan(outLen: nat, end: nat, hasEscape: bool, rawHash: nat)

  /** json__parse_hex4. */
  method ParseHex4(s: bytes, i: nat) returns (r: Option<nat>)
    ensures r == Hex4(s, i)
  {
    if i + 4 > |s| { return None; }
    var h0, h1, h2, h3 := HexVal(s[i]), HexVal(s[i + 1]), HexVal(s[i + 2]), HexVal(s[i + 3]);
    if h0.None? || h1.None? || h2.None? || h3.None? { return None; }
    return Some(h0.value * 4096 + h1.value * 256 + h2.value * 16 + h3.value);
  }

  /** The \u arm of pass 1: the source length of the escape and the length of its UTF-8 form. */
  method MeasureUnicodeEscape(s: bytes, i: nat) returns (r: Result<(nat, nat)>)
    requires i + 1 < |s|
    ensures r.Err? <==> UnicodeEscapeAt(s, i).Err?
    ensures r.Err? ==> r.error == UnicodeEscapeAt(s, i).error
    ensures r.Ok? ==> r.value == (UnicodeEscapeAt(s, i).value.len, |UnicodeEscapeAt(s, i).value.out|)
  {
    var hi := ParseHex4(s, i + 2);
    if hi.None? { return Err(InvalidString); }
    if IsHighSurrogate(hi.value) {
      if i + 7 >= |s| || s[i + 6] != BACKSLASH || s[i + 7] != 0x75 { return Err(InvalidString); }
      var lo := ParseHex4(s, i + 8);
      if lo.None? { return Err(InvalidString); }
      if !IsLowSurrogate(lo.value) { return Err(InvalidString); }
      return Ok((12, 4));
    } else if IsLowSurrogate(hi.value) {
      return Err(InvalidString);
    }
    return Ok((6, if hi.value < 0x80 then 1 else if hi.value < 0x800 then 2 else 3));
  }

  lemma FnvConcatOne(acc: bytes, s: bytes, i: nat, k: nat)
    requires i + k < |s|
    ensures Hash(acc + s[i..i + k + 1]) == Mix(Hash(acc + s[i..i + k]), s[i + k])
  {
    FnvSnoc(acc + s[i..i + k], s[i + k]);
    assert acc + s[i..i + k] + [s[i + k]] == acc + s[i..i + k + 1];
  }

  /** The escape arm of pass 1. */
  method MeasureEscape(s: bytes, i: nat) returns (r: Result<(nat, nat)>)
    requires i < |s| && s[i] == BACKSLASH
    ensures r.Err? <==> ItemAt(s, i).Err?
    ensures r.Err? ==> r.error == ItemAt(s, i).error
    ensures r.Ok? ==> r.value == (ItemAt(s, i).value.len, |ItemAt(s, i).value.out|)
  {
    if i + 1 >= |s| { return Err(UnexpectedEof); }
    if s[i + 1] == 0x75 {
      r := MeasureUnicodeEscape(s, i);
    } else if ShortEscape(s[i + 1]).Some? {
      r := Ok((2, 1));
    } else {
      r := Err(InvalidString);
    }
  }

  /** The non-ASCII arm of pass 1: validates one character and hashes its bytes. */
  method MeasureUtf8(s: bytes, i: nat, hash: nat, ghost acc: bytes) returns (r: Result<(nat, nat)>)
    requires i < |s| && s[i] >= 0x80
    ensures r.Err? <==> ItemAt(s, i).Err?
    ensures r.Err? ==> r.error == ItemAt(s, i).error
    ensures r.Ok? ==> r.value.0 == ItemAt(s, i).value.len == |ItemAt(s, i).value.out|
    ensures r.Ok? ==> ItemAt(s, i).value.out == s[i..i + r.value.0]
    ensures r.Ok? && hash == Hash(acc) ==> r.value.1 == Hash(acc + ItemAt(s, i).value.out)
  {
    var d := Utf8Decode(s, i);
    if d.None? { return Err(InvalidUtf8); }
    DecodeSound(s, i);
    AtSlice(s, i, Encode(d.value.cp));
    var count, h := d.value.count, hash;
    assert acc + s[i..i] == acc;
    for k := 0 to count
      invariant hash == Hash(acc) ==> h == Hash(acc + s[i..i + k])
    {
      FnvConcatOne(acc, s, i, k);
      h := Mix(h, s[i + k]);
    }
    return Ok((count, h));
  }

  /** One character as pass 1 sees it. */
  datatype Measured = Measured(len: nat, outLen: nat, hash: nat)

  /** One iteration of pass 1: the four-way switch on the next byte. */
  method MeasureItem(s: bytes, i: nat, hash: nat, ghost acc: bytes) returns (r: Result<Measured>)
    requires i < |s| && s[i] != QUOTE
    ensures r.Err? <==> ItemAt(s, i).Err?
    ensures r.Err? ==> r.error == ItemAt(s, i).error
    ensures r.Ok? ==> r.value.len == ItemAt(s, i).value.len && r.value.outLen == |ItemAt(s, i).value.out|
    ensures r.Ok? && s[i] != BACKSLASH ==>
      ItemAt(s, i).value.out == s[i..i + r.value.len] &&
      (hash == Hash(acc) ==> r.value.hash == Hash(acc + ItemAt(s, i).value.out))
  {
    var c := s[i];
    if c == BACKSLASH {
      var m := MeasureEscape(s, i);
      r := if m.Err? then Err(m.error) else Ok(Measured(m.value.0, m.value.1, hash));
    } else if c < 0x20 {
      r := Err(InvalidString);
    } else if c >= 0x80 {
      var m := MeasureUtf8(s, i, hash, acc);
      r := if m.Err? then Err(m.error) else Ok(Measured(m.value.0, m.value.0, m.value.1));
    } else {
      FnvSnoc(acc, c);
      r := Ok(Measured(1, 1, Mix(hash, c)));
    }
  }

  /** While no escape has been seen, the output so far is the source so far and the hash is running. */
  ghost predicate RawSoFar(s: bytes, start: nat, pos: nat, acc: bytes, rawHash: nat) {
    start <= pos <= |s| && acc == s[start..pos] && rawHash == Hash(acc)
  }

  lemma RawStart(s: bytes, start: nat)
    requires start <= |s|
    ensures RawSoFar(s, start, start, [], OFFSET)
  {}

  lemma RawStep(s: bytes, start: nat, pos: nat, acc: bytes, rawHash: nat, m: Measured)
    requires pos < |s| && s[pos] != QUOTE && ItemAt(s, pos).Ok? && m.len == ItemAt(s, pos).value.len
    requires s[pos] != BACKSLASH ==>
      ItemAt(s, pos).value.out == s[pos..pos + m.len] &&
      (rawHash == Hash(acc) ==> m.hash == Hash(acc + ItemAt(s, pos).value.out))
    ensures s[pos] != BACKSLASH && RawSoFar(s, start, pos, acc, rawHash) ==>
      RawSoFar(s, start, pos + m.len, acc + ItemAt(s, pos).value.out, m.hash)
  {
    hide ItemAt, Hash;
    if s[pos] != BACKSLASH && RawSoFar(s, start, pos, acc, rawHash) {
      assert s[start..pos] + s[pos..pos + m.len] == s[start..pos + m.len];
    }
  }

  /** Pass 1 of json__parse_string. */
  method MeasureString(s: bytes, start: nat) returns (r: Result<Scan>)
    requires start <= |s|
    ensures r.Err? <==> ContentAt(s, start).Err?
    ensures r.Err? ==> r.error == ContentAt(s, start).error
    ensures r.Ok? ==> r.value.outLen == |ContentAt(s, start).value.out| && r.value.end == ContentAt(s, start).value.end
    ensures r.Ok? && !r.value.hasEscape ==>
      RawSoFar(s, start, r.value.end, ContentAt(s, start).value.out, r.value.rawHash)
  {
    hide ItemAt, RawSoFar, Hash;
    var pos, outLen, hasEscape, rawHash := start, 0, false, OFFSET;
    ghost var acc: bytes := [];
    PrependNothing(ContentAt(s, start));
    RawStart(s, start);
    while pos < |s| && s[pos] != QUOTE
      invariant start <= pos <= |s|
      invariant outLen == |acc|
      invariant ContentAt(s, start) == Prepend(acc, ContentAt(s, pos))
      invariant !hasEscape ==> RawSoFar(s, start, pos, acc, rawHash)
      decreases |s| - pos
    {
      ContentStep(s, pos, acc);
      var m := MeasureItem(s, pos, rawHash, acc);
      if m.Err? { return Err(m.error); }
      RawStep(s, start, pos, acc, rawHash, m.value);
      hasEscape := hasEscape || s[pos] == BACKSLASH;
      acc := acc + ItemAt(s, pos).value.out;
      pos, outLen, rawHash := pos + m.value.len, outLen + m.value.outLen, m.value.hash;
    }
    if pos >= |s| { return Err(UnexpectedEof); }
    assert acc + [] == acc;
    return Ok(Scan(outLen, pos, hasEscape, rawHash));
  }

  lemma PrependNothing(r: Result<Content>)
    ensures Prepend([], r) == r
  {
    if r.Ok? { assert [] + r.value.out == r.value.out; }
  }

  // ---------- pass 2: decode into the allocated buffer ----------

  /** What pass 2 takes at s[i]: a whole escape, or a single byte whatever it is. */
  function CopyItemAt(s: bytes, i: nat): (r: Result<Item>)
    requires i < |s| && s[i] != QUOTE
    ensures r.Ok? ==> 1 <= r.value.len && i + r.value.len <= |s|
  {
    if s[i] == BACKSLASH then ItemAt(s, i) else Ok(Item(1, [s[i]]))
  }

  /** Everything that pass 2 copies from s[i..]. */
  function CopyAt(s: bytes, i: nat): (r: Result<Content>)
    requires i <= |s|
    ensures r.Ok? ==> i <= r.value.end < |s| && s[r.value.end] == QUOTE
    decreases |s| - i
  {
    if i == |s| then Err(UnexpectedEof)
    else if s[i] == QUOTE then Ok(Content(i, []))
    else match CopyItemAt(s, i)
      case Err(e) => Err(e)
      case Ok(item) => Prepend(item.out, CopyAt(s, i + item.len))
  }

  /** Bytes of a multi-byte character are copied one at a time. */
  lemma {:induction false} CopyRun(s: bytes, i: nat, n: nat)
    requires i + n <= |s| && forall k :: i <= k < i + n ==> s[k] >= 0x80
    ensures CopyAt(s, i) == Prepend(s[i..i + n], CopyAt(s, i + n))
    decreases n
  {
    if n == 0 {
      assert s[i..i] == [];
      PrependNothing(CopyAt(s, i));
    } else {
      CopyRun(s, i + 1, n - 1);
      CopyByte(s, i);
      hide CopyAt, Prepend;
      PrependPrepend([s[i]], s[i + 1..i + n], CopyAt(s, i + n));
      assert [s[i]] + s[i + 1..i + n] == s[i..i + n];
    }
  }

  lemma CopyByte(s: bytes, i: nat)
    requires i < |s| && s[i] >= 0x80
    ensures CopyAt(s, i) == Prepend([s[i]], CopyAt(s, i + 1))
  {}

  /** On every literal that pass 1 accepts, pass 2 copies exactly the content, up to the same quote. */
  lemma {:induction false} PassesAgree(s: bytes, i: nat)
    requires i <= |s| && ContentAt(s, i).Ok?
    ensures CopyAt(s, i) == ContentAt(s, i)
    decreases |s| - i
  {
    if s[i] != QUOTE {
      var item := ItemAt(s, i).value;
      PassesAgree(s, i + item.len);
      if s[i] >= 0x80 {
        AcceptedTails(s, i);
        DecodeSound(s, i);
        AtSlice(s, i, item.out);
        CopyRun(s, i, item.len);
      }
    }
  }

  /** One step of a copy that has already produced `acc`. */
  lemma CopyStep(s: bytes, i: nat, acc: bytes)
    requires i < |s| && s[i] != QUOTE
    requires CopyAt(s, i).Ok?
    ensures CopyItemAt(s, i).Ok?
    ensures var item := CopyItemAt(s, i).value;
      Prepend(acc, CopyAt(s, i)) == Prepend(acc + item.out, CopyAt(s, i + item.len))
  {
    PrependPrepend(acc, CopyItemAt(s, i).value.out, CopyAt(s, i + CopyItemAt(s, i).value.len));
  }

  /** The escape arm of pass 2: stores the decoded escape at out[at..]. */
  method CopyEscape(s: bytes, i: nat, out: array<byte>, at: nat) returns (len: nat, n: nat)
    requires i < |s| && s[i] == BACKSLASH && ItemAt(s, i).Ok?
    requires at + |ItemAt(s, i).value.out| <= out.Length
    modifies out
    ensures len == ItemAt(s, i).value.len && n == |ItemAt(s, i).value.out|
    ensures out[..at + n] == old(out[..at]) + ItemAt(s, i).value.out
  {
    if s[i + 1] == 0x75 {
      var hi := ParseHex4(s, i + 2);
      var cp: nat;
      if IsHighSurrogate(hi.value) {
        var lo := ParseHex4(s, i + 8);
        cp := 0x10000 + (hi.value - 0xD800) * 0x400 + (lo.value - 0xDC00);
        len := 12;
      } else {
        cp := hi.value;
        len := 6;
      }
      n := EncodeInto(cp, out, at);
      assert out[..at + n] == out[..][..at + n];
    } else {
      out[at] := ShortEscape(s[i + 1]).value;
      len, n := 2, 1;
    }
  }

  /** Pass 2 of json__parse_string on a literal that has escapes: fills `out` and stops at the quote. */
  method CopyString(s: bytes, start: nat, out: array<byte>) returns (end: nat)
    requires start <= |s| && CopyAt(s, start).Ok?
    requires out.Length == |CopyAt(s, start).value.out|
    modifies out
    ensures out[..] == CopyAt(s, start).value.out && end == CopyAt(s, start).value.end
  {
    var pos, at := start, 0;
    PrependNothing(CopyAt(s, start));
    while pos < |s| && s[pos] != QUOTE
      invariant start <= pos <= |s| && at <= out.Length
      invariant CopyAt(s, start) == Prepend(out[..at], CopyAt(s, pos))
      decreases |s| - pos
    {
      CopyStep(s, pos, out[..at]);
      ghost var before := out[..at];
      ghost var item := CopyItemAt(s, pos).value;
      assert at + |item.out| <= out.Length;
      if s[pos] == BACKSLASH {
        var len, n := CopyEscape(s, pos, out, at);
        pos, at := pos + len, at + n;
      } else {
        out[at] := s[pos];
        pos, at := pos + 1, at + 1;
      }
      assert out[..at] == before + item.out;
    }
    assert out[..at] + [] == out[..];
    return pos;
  }

  /** json__parse_string: measure, check the limit, allocate, copy or decode. */
  method ParseString(s: bytes, start: nat, maxLen: nat) returns (r: Result<Literal>, hash: nat)
    requires start <= |s|
    ensures r == StringAt(s, start, maxLen)
    ensures r.Ok? ==> hash == Hash(r.value.value)
  {
    hash := 0;
    var scan := MeasureString(s, start);
    if scan.Err? { return Err(scan.error), 0; }
    if scan.value.outLen > maxLen { return Err(Overflow), 0; }
    var out := new byte[scan.value.outLen];
    var end: nat;
    if !scan.value.hasEscape {
      forall k | 0 <= k < out.Length { out[k] := s[start + k]; }
      end := start + out.Length;
      hash := scan.value.rawHash;
      assert out[..] == s[start..end];
    } else {
      PassesAgree(s, start);
      end := CopyString(s, start, out);
      hash := Fnv1a(out[..]);
    }
    return Ok(Literal(out[..], end + 1)), hash;
  }
}
