/** What the writer writes: the text of a value under the write options, and where writing stops. */
module WriterSpec {
  import opened Base
  import opened Utf8
  import opened Tree
  import opened NumberGrammar
  import opened KeyOrder
  import opened Sort
  import opened Objects

  /** JsonWriteOpts. */
  datatype Opts = Opts(pretty: bool, indent: nat, sortKeys: bool, asciiOnly: bool, trailingNl: bool)

  /** What stays fixed while a value is written. */
  datatype Style = Style(opts: Opts, maxDepth: nat, pal: Pal)

  /** The text written up to the end or up to an error, and that error. */
  datatype Out = Out(text: bytes, error: Option<Error>)

  function Done(text: bytes): Out { Out(text, None) }

  /** First `a`; then `b`, unless `a` stopped. */
  function Then(a: Out, b: Out): Out {
    if a.error.Some? then a else Out(a.text + b.text, b.error)
  }

  // ---------- strings ----------

  function HexDigit(n: nat): byte
    requires n < 16
  {
    if n < 10 then 0x30 + n else 0x57 + n
  }

  function Hex4Text(u: nat): bytes
    requires u < 0x1_0000
  {
    [HexDigit(u / 4096), HexDigit(u / 256 % 16), HexDigit(u / 16 % 16), HexDigit(u % 16)]
  }

  /** jw_u16. */
  function U16Text(u: nat): bytes
    requires u < 0x1_0000
  {
    [BACKSLASH, 0x75] + Hex4Text(u)
  }

  /** The letter of the two-character escape for `c`, if it has one. */
  function ShortLetter(c: nat): Option<byte> {
    if c == QUOTE || c == BACKSLASH then Some(c)
    else if c == 0x0A then Some(0x6E)
    else if c == 0x0D then Some(0x72)
    else if c == 0x09 then Some(0x74)
    else if c == 0x08 then Some(0x62)
    else if c == 0x0C then Some(0x66)
    else None
  }

  /** The text of an ASCII character. */
  function AsciiText(c: nat): bytes
    requires c < 0x80
  {
    match ShortLetter(c)
    case Some(letter) => [BACKSLASH, letter]
    case None => if c < 0x20 then U16Text(c) else [c]
  }

  /** The text of one character. */
  function CharOut(cp: scalar, ascii: bool): bytes {
    if cp < 0x80 then AsciiText(cp)
    else if !ascii then Encode(cp)
    else if cp <= 0xFFFF then U16Text(cp)
    else U16Text(0xD800 + (cp - 0x1_0000) / 1024) + U16Text(0xDC00 + (cp - 0x1_0000) % 1024)
  }

  /** jw_string_content on s[i..]. */
  function StringOut(s: bytes, i: nat, ascii: bool): Out
    requires i <= |s|
    decreases |s| - i
  {
    if i == |s| then Done([])
    else match DecodeAt(s, i)
      case None => Out([], Some(InvalidUtf8))
      case Some(d) => Then(Done(CharOut(d.cp, ascii)), StringOut(s, i + d.count, ascii))
  }

  /** Only valid strings are written without an error. */
  lemma {:induction false} ValidContent(s: bytes, i: nat, ascii: bool)
    requires i <= |s|
    ensures StringOut(s, i, ascii).error.None? <==> ValidFrom(s, i)
    decreases |s| - i
  {
    if i < |s| && DecodeAt(s, i).Some? { ValidContent(s, i + DecodeAt(s, i).value.count, ascii); }
  }

  function QuotedOut(s: bytes, ascii: bool): Out {
    Then(Done([QUOTE]), Then(StringOut(s, 0, ascii), Done([QUOTE])))
  }

  // ---------- numbers ----------

  predicate HasDot(u: bytes) { exists k :: 0 <= k < |u| && (u[k] == DOT || u[k] == 0x65 || u[k] == 0x45) }

  /** jw_double: `format` is "%.17g", with None for NaN and infinities. */
  function FloatOut(f: Double, pal: Pal): (r: Out)
    ensures r.error.None? ==> 0 < |r.text| < 34
  {
    match pal.format(f)
    case None => Out([], Some(InvalidNumber))
    case Some(u) =>
      if |u| >= 32 then Out([], Some(Overflow))
      else Done(if !HasDot(u) && |u| + 2 < 32 then u + [DOT, 0x30] else u)
  }

  // ---------- values ----------

  function Spaces(n: nat): (s: bytes)
    ensures |s| == n
  {
    seq(n, _ => SPACE)
  }

  /** The line break and indentation of pretty mode. */
  function LineBreak(st: Style, depth: nat): bytes {
    if st.opts.pretty then [NEWLINE] + Spaces(depth * st.opts.indent) else []
  }

  /** What precedes the closing bracket of a container with `n` elements. */
  function CloseBreak(st: Style, depth: nat, n: nat): bytes {
    if n > 0 then LineBreak(st, depth) else []
  }

  function Sep(k: nat): bytes { if k > 0 then [COMMA] else [] }

  const NULL_TEXT: bytes := [0x6E, 0x75, 0x6C, 0x6C]
  const TRUE_TEXT: bytes := [0x74, 0x72, 0x75, 0x65]
  const FALSE_TEXT: bytes := [0x66, 0x61, 0x6C, 0x73, 0x65]

  /** json__write_value, for a value whose objects list their pairs in writing order. */
  function ValueOut(t: Json, st: Style, depth: nat): Out
    decreases t, 0
  {
    if depth >= st.maxDepth then Out([], Some(DepthExceeded))
    else match t
      case Null => Done(NULL_TEXT)
      case Bool(b) => Done(if b then TRUE_TEXT else FALSE_TEXT)
      case Int(i) => Done(IntText(i))
      case Float(f) => FloatOut(f, st.pal)
      case Str(s) => QuotedOut(s, st.opts.asciiOnly)
      case Arr(items) => Enclosed(LBRACKET, ItemsOut(items, st, depth + 1), CloseBreak(st, depth, |items|), RBRACKET)
      case Obj(pairs) => Enclosed(LBRACE, PairsOut(pairs, st, depth + 1), CloseBreak(st, depth, |pairs|), RBRACE)
  }

  function Enclosed(open: byte, body: Out, lead: bytes, close: byte): Out {
    Then(Done([open]), Then(body, Done(lead + [close])))
  }

  function ItemsOut(items: seq<Json>, st: Style, depth: nat): Out
    decreases items, 1
  {
    if items == [] then Done([])
    else
      var n := |items| - 1;
      Then(ItemsOut(items[..n], st, depth), Then(Done(Sep(n) + LineBreak(st, depth)), ValueOut(items[n], st, depth)))
  }

  function PairsOut(pairs: seq<Pair>, st: Style, depth: nat): Out
    decreases pairs, 1
  {
    if pairs == [] then Done([])
    else
      var n := |pairs| - 1;
      Then(PairsOut(pairs[..n], st, depth),
           Then(Done(Sep(n) + LineBreak(st, depth) + KeyText(pairs[n].key, st)), ValueOut(pairs[n].val, st, depth)))
  }

  /** A key with its quotes and colon; an error inside the key does not stop the writer. */
  function KeyText(key: bytes, st: Style): bytes {
    [QUOTE] + StringOut(key, 0, st.opts.asciiOnly).text + [QUOTE] + ColonText(st)
  }

  function ColonText(st: Style): bytes {
    if st.opts.pretty then [COLON, SPACE] else [COLON]
  }

  /** json_write: the value and the optional newline. */
  function DocumentOut(t: Json, st: Style): Out {
    Then(ValueOut(t, st, 0), Done(if st.opts.trailingNl then [NEWLINE] else []))
  }

  /** What every value built by the library satisfies: integers fit 64 bits and keys are valid UTF-8. */
  predicate Proper(t: Json)
    decreases t
  {
    match t
    case Int(i) => INT64_MIN <= i <= INT64_MAX
    case Arr(items) => forall k :: 0 <= k < |items| ==> Proper(items[k])
    case Obj(pairs) => forall k :: 0 <= k < |pairs| ==> ProperPair(pairs[k])
    case _ => true
  }

  predicate ProperPair(p: Pair)
    decreases p
  {
    ValidUtf8(p.key) && Proper(p.val)
  }

  // ---------- the order of object members ----------

  /** The lexical order of JsonWriteOpts.sort_keys. */
  function LexCtx(pairs: seq<Pair>): Ctx {
    Ctx((k: nat) => if k < |pairs| then Key(pairs[k].key, 0) else Key([], 0), true)
  }

  /** The pair numbers in the order in which an object is written. */
  ghost predicate WriteOrder(pairs: seq<Pair>, order: seq<nat>, sort: bool) {
    && IsPermutation(order, |pairs|)
    && (forall k :: 0 <= k < |order| ==> order[k] < |pairs|)
    && (if sort then Sorted(LexCtx(pairs), order, 0, |order|) else order == Identity(|pairs|))
  }

  /** `u` is `t` with the members of every object in writing order. */
  ghost predicate Arranges(t: Json, u: Json, sort: bool)
    decreases t, 0
  {
    match t
    case Arr(items) =>
      u.Arr? && |u.items| == |items| && forall k :: 0 <= k < |items| ==> Arranges(items[k], u.items[k], sort)
    case Obj(pairs) => u.Obj? && exists order :: ArrangesBy(pairs, u.pairs, order, sort)
    case _ => u == t
  }

  ghost predicate ArrangesBy(pairs: seq<Pair>, qs: seq<Pair>, order: seq<nat>, sort: bool)
    decreases pairs, 1
  {
    && WriteOrder(pairs, order, sort) && |qs| == |pairs|
    && (forall k :: 0 <= k < |qs| ==> ArrangedPair(pairs, qs[k], order[k], sort))
  }

  ghost predicate ArrangedPair(pairs: seq<Pair>, q: Pair, k: nat, sort: bool)
    decreases pairs, 0
  {
    k < |pairs| && q.key == pairs[k].key && Arranges(pairs[k].val, q.val, sort)
  }
}
