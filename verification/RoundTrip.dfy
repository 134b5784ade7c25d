/** The writer is a right inverse of the parser: what it writes is a derivation of what it was given. */
module RoundTrip {
  import opened Base
  import opened Utf8
  import opened Tree
  import opened StringLex
  import opened Lexical
  import opened StringGrammar
  import opened Numbers
  import opened NumberGrammar
  import opened ParserSpec
  import G = Grammar
  import opened ParserExact
  import opened Objects
  import opened WriterSpec
  import opened Layout
  import opened Arrangement
  import opened Measure

  // ---------- strings ----------

  /** The grammatical character that the writer chooses. */
  function OutChar(cp: scalar, ascii: bool): StrChar {
    if cp < 0x80 then
      match ShortLetter(cp)
      case Some(letter) => Short(letter)
      case None => if cp < 0x20 then Unicode(Hex4Text(cp)) else Unescaped(cp)
    else if !ascii then Unescaped(cp)
    else if cp <= 0xFFFF then Unicode(Hex4Text(cp))
    else SurrogatePair(Hex4Text(0xD800 + (cp - 0x1_0000) / 1024), Hex4Text(0xDC00 + (cp - 0x1_0000) % 1024))
  }

  lemma HexDigits(n: nat)
    requires n < 16
    ensures HexDigitOf(HexDigit(n)) == Some(n) && LowerHex([HexDigit(n)])
  {}

  lemma Hex4Value(u: nat)
    requires u < 0x1_0000
    ensures IsHex4(Hex4Text(u)) && HexNumber(Hex4Text(u)) == u && LowerHex(Hex4Text(u))
  {
    hide HexDigitOf, HexDigit;
    var a, b, c, d := u / 4096, u / 256 % 16, u / 16 % 16, u % 16;
    HexDigits(a);
    HexDigits(b);
    HexDigits(c);
    HexDigits(d);
    assert u / 16 == u / 256 * 16 + c && u / 256 == a * 16 + b;
    assert [HexDigit(a)][0] == Hex4Text(u)[0] && [HexDigit(b)][0] == Hex4Text(u)[1];
    assert [HexDigit(c)][0] == Hex4Text(u)[2] && [HexDigit(d)][0] == Hex4Text(u)[3];
  }

  lemma LengthOfHex(h: bytes, l: bytes)
    requires IsHex4(h) && IsHex4(l)
    ensures |h| == 4 && |l| == 4
  {}

  lemma AsciiEncoding(cp: scalar)
    ensures cp < 0x80 ==> Encode(cp) == [cp]
    ensures 0x80 <= cp ==> |Encode(cp)| >= 2
  {}

  /** The writer's text for a character is grammatical, denotes it, and is escaped in the writer's style. */
  lemma OutCharIsChar(cp: scalar, ascii: bool)
    ensures WellFormedChar(OutChar(cp, ascii)) && CharText(OutChar(cp, ascii)) == CharOut(cp, ascii)
    ensures StyledChar(OutChar(cp, ascii), ascii)
    ensures CharMeaning(OutChar(cp, ascii)) == Encode(cp)
    ensures ascii ==> forall k :: 0 <= k < |CharOut(cp, ascii)| ==> CharOut(cp, ascii)[k] < 0x80
  {
    hide HexNumber, IsHex4, Hex4Text, HexDigitOf, Encode;
    AsciiEncoding(cp);
    if cp <= 0xFFFF {
      Hex4Value(cp);
      LengthOfHex(Hex4Text(cp), Hex4Text(cp));
    } else {
      var hi, lo := 0xD800 + (cp - 0x1_0000) / 1024, 0xDC00 + (cp - 0x1_0000) % 1024;
      Hex4Value(hi);
      Hex4Value(lo);
      var u: bytes := [BACKSLASH, 0x75];
      assert (u + Hex4Text(hi)) + (u + Hex4Text(lo)) == u + Hex4Text(hi) + u + Hex4Text(lo);
      assert PairCode(hi, lo) == cp;
      LengthOfHex(Hex4Text(hi), Hex4Text(lo));
    }
  }

  /** The written content of a string is grammatical and denotes exactly the string's bytes. */
  lemma {:induction false} StringLayout(s: bytes, i: nat, ascii: bool) returns (cs: seq<StrChar>)
    requires i <= |s| && StringOut(s, i, ascii).error.None?
    ensures WellFormedChars(cs) && CharsText(cs) == StringOut(s, i, ascii).text && CharsMeaning(cs) == s[i..]
    ensures StyledChars(cs, ascii)
    ensures ascii ==> forall k :: 0 <= k < |CharsText(cs)| ==> CharsText(cs)[k] < 0x80
    decreases |s| - i
  {
    hide CharOut, Encode, CharText, CharMeaning, WellFormedChar, StyledChar, OutChar, DecodeAt;
    if i == |s| {
      cs := [];
    } else {
      var d := DecodeAt(s, i).value;
      DecodeSound(s, i);
      AtSlice(s, i, Encode(d.cp));
      EncodeSize(d.cp);
      var rest := StringLayout(s, i + d.count, ascii);
      OutCharIsChar(d.cp, ascii);
      cs := [OutChar(d.cp, ascii)] + rest;
      CharsCons(OutChar(d.cp, ascii), rest);
      assert s[i..] == s[i..i + d.count] + s[i + d.count..];
    }
  }

  lemma EncodeSize(cp: scalar)
    ensures 1 <= |Encode(cp)|
  {}

  /**
    * String escape inverse: reading the escaped content and a closing quote gives back the original
    * bytes, in both modes; in ASCII mode every byte written is below 0x80.
    */
  lemma EscapeInverse(s: bytes, ascii: bool, maxLen: nat)
    requires ValidUtf8(s) && |s| <= maxLen
    ensures var text := StringOut(s, 0, ascii).text;
      && StringAt(text + [QUOTE], 0, maxLen) == Ok(Literal(s, |text| + 1))
      && (ascii ==> forall k :: 0 <= k < |text| ==> text[k] < 0x80)
  {
    ValidContent(s, 0, ascii);
    var cs := StringLayout(s, 0, ascii);
    var text := StringOut(s, 0, ascii).text;
    ContentComplete(text + [QUOTE], 0, cs);
  }

  // ---------- integers ----------

  /** An integer literal of any length denotes its exact value, or is refused when that needs more than 64 bits. */
  lemma IntegerLiteral(minus: bool, ds: bytes, pal: Pal)
    requires WellFormedNumber(NumberText(minus, ds, None, None))
    ensures var s := NumText(NumberText(minus, ds, None, None));
      var v: int := if minus then -(Value(ds) as int) else Value(ds);
      NumberAt(s, 0, pal) == if INT64_MIN <= v <= INT64_MAX then Ok(Number(Int(v), |s|)) else Err(Overflow)
  {
    hide *;
    var n := NumberText(minus, ds, None, None);
    WholeAt(NumText(n));
    NumberComplete(NumText(n), 0, n);
    IntegerParts(minus, ds, |NumText(n)|, NumText(n), pal);
    NumberFrom(NumText(n), Parts(n, |NumText(n)|), pal);
  }

  lemma WholeAt(s: bytes)
    ensures At(s, 0, s) && Ends(s, 0 + |s|)
  {}

  lemma IntegerParts(minus: bool, ds: bytes, next: nat, text: bytes, pal: Pal)
    requires WellFormedNumber(NumberText(minus, ds, None, None))
    ensures var x := Parts(NumberText(minus, ds, None, None), next);
      var v: int := if minus then -(Value(ds) as int) else Value(ds);
      WellFormedLexeme(x) && x.next == next
      && NumberValue(x, text, pal) == if INT64_MIN <= v <= INT64_MAX then Ok(Int(v)) else Err(Overflow)
  {
    assert ds + [] == ds;
  }

  lemma NumberFrom(s: bytes, x: Lexeme, pal: Pal)
    requires LexNumber(s, 0) == Ok(x) && x.next == |s| && WellFormedLexeme(x)
    ensures NumberAt(s, 0, pal) ==
      match NumberValue(x, s, pal)
      case Err(e) => Err(e)
      case Ok(v) => Ok(Number(v, |s|))
  {
    assert s[0..|s|] == s;
  }

  /** Reading what jw_int64 writes gives the number back. */
  lemma IntegerRoundTrip(v: int, pal: Pal)
    requires INT64_MIN <= v <= INT64_MAX
    ensures NumberAt(IntText(v), 0, pal) == Ok(Number(Int(v), |IntText(v)|))
  {
    hide Decimal;
    var ds := Decimal(if v < 0 then -v else v);
    IntegerLiteral(v < 0, ds, pal);
    assert IntText(v) == NumText(NumberText(v < 0, ds, None, None));
  }

  // ---------- values ----------

  /** The double is rendered as a number that, read as a double, is the same double. */
  ghost predicate FaithfulFloat(f: Double, pal: Pal) {
    exists n: NumberText :: IsRendering(n, f, pal)
  }

  ghost predicate IsRendering(n: NumberText, f: Double, pal: Pal) {
    && WellFormedNumber(n) && pal.format(f) == Some(NumText(n)) && |NumText(n)| + 2 < 32
    && forall m: NumberText {:trigger NumText(m)} ::
      WellFormedNumber(m) && WritesDouble(m) && m.minus == n.minus && TextValue(m) == TextValue(n) ==>
        ReadsAs(m, f, pal)
  }

  /** A literal with a fraction or an exponent. */
  predicate WritesDouble(n: NumberText) { n.frac.Some? || n.exp.Some? }

  ghost predicate ReadsAs(n: NumberText, f: Double, pal: Pal) {
    WellFormedLexeme(Parts(n, 0)) && NumberValue(Parts(n, 0), NumText(n), pal) == Ok(Float(f))
  }

  /** A literal contains a point or an exponent letter exactly when it has a fraction or an exponent. */
  lemma DotMeansDouble(n: NumberText)
    requires WellFormedNumber(n)
    ensures HasDot(NumText(n)) <==> WritesDouble(n)
  {
    hide HasDot;
    HasDotConcat(MinusText(n.minus), n.whole + (FracText(n.frac) + ExponentText(n.exp)));
    HasDotConcat(n.whole, FracText(n.frac) + ExponentText(n.exp));
    HasDotConcat(FracText(n.frac), ExponentText(n.exp));
    NoDotInDigits(n.whole);
    NoDotInDigits(MinusText(n.minus));
    NoDotInDigits([]);
    if n.frac.Some? { DotAtHead(FracText(n.frac)); }
    if n.exp.Some? { DotAtHead(ExponentText(n.exp)); }
  }

  lemma HasDotConcat(u: bytes, v: bytes)
    ensures HasDot(u + v) <==> HasDot(u) || HasDot(v)
  {
    if k :| 0 <= k < |u| && (u[k] == DOT || u[k] == 0x65 || u[k] == 0x45) { assert (u + v)[k] == u[k]; }
    if k :| 0 <= k < |v| && (v[k] == DOT || v[k] == 0x65 || v[k] == 0x45) { assert (u + v)[|u| + k] == v[k]; }
  }

  lemma NoDotInDigits(ds: bytes)
    requires AllDigits(ds) || ds == [MINUS]
    ensures !HasDot(ds)
  {}

  lemma DotAtHead(u: bytes)
    requires u != [] && (u[0] == DOT || u[0] == 0x65 || u[0] == 0x45)
    ensures HasDot(u)
  {}

  /**
    * The rule of jw_double: whatever "%.17g" renders, the text that is written is a literal of a double
    * with the same sign and value, so it is not read back as an integer. Only integers get the ".0".
    */
  lemma RenderedText(n: NumberText, f: Double, pal: Pal) returns (m: NumberText)
    requires WellFormedNumber(n) && pal.format(f) == Some(NumText(n)) && |NumText(n)| + 2 < 32
    ensures WellFormedNumber(m) && WritesDouble(m) && m.minus == n.minus && TextValue(m) == TextValue(n)
    ensures m == if WritesDouble(n) then n else n.(frac := Some([0x30]))
    ensures FloatOut(f, pal) == Done(NumText(m))
  {
    DotMeansDouble(n);
    if WritesDouble(n) {
      m := n;
    } else {
      m := n.(frac := Some([0x30]));
      PointZero(n);
    }
    hide NumText, HasDot, TextValue, WellFormedNumber;
  }

  lemma PointZero(n: NumberText)
    requires WellFormedNumber(n) && !WritesDouble(n)
    ensures var m := n.(frac := Some([0x30]));
      WellFormedNumber(m) && NumText(m) == NumText(n) + [DOT, 0x30] && TextValue(m) == TextValue(n)
  {
    hide Value, Pow10R;
    assert FracValue([0x30]) == FracValue([]) + 0.0 * Pow10R(-1) == 0.0;
    assert n.whole + ([] + []) == n.whole;
    assert n.whole + (([DOT] + [0x30]) + []) == n.whole + [DOT, 0x30];
  }

  /** Strings are valid UTF-8, and doubles, if there are any, survive rendering. */
  ghost predicate Readable(t: Json, pal: Pal)
    decreases t
  {
    match t
    case Float(f) => FaithfulFloat(f, pal)
    case Str(s) => ValidUtf8(s)
    case Arr(items) => forall k :: 0 <= k < |items| ==> Readable(items[k], pal)
    case Obj(pairs) => forall k :: 0 <= k < |pairs| ==> ReadablePair(pairs[k], pal)
    case _ => true
  }

  ghost predicate ReadablePair(p: Pair, pal: Pal)
    decreases p
  {
    Readable(p.val, pal)
  }

  /** `v` is a derivation of `t`, laid out by the options, whose text is what the writer writes for `t`. */
  ghost predicate Lays(v: G.Value, t: Json, st: Style, depth: nat) {
    && G.WellFormed(v) && Styled(v, st.opts, depth)
    && G.ValueText(v) == ValueOut(t, st, depth).text && G.Meaning(v, st.pal) == Some(t)
  }

  const NO_PAD: G.Pad := G.Pad([], [])

  function BreakPad(st: Style, depth: nat): G.Pad { G.Pad([], LineBreak(st, depth)) }

  lemma BreakIsWs(st: Style, depth: nat)
    ensures G.AllWs(LineBreak(st, depth)) && G.WellFormedPad(BreakPad(st, depth)) && G.WellFormedPad(NO_PAD)
    ensures IsBreak(LineBreak(st, depth), st.opts, depth)
  {}

  lemma {:induction false} ValueLayout(t: Json, st: Style, depth: nat) returns (v: G.Value)
    requires ValueOut(t, st, depth).error.None? && Proper(t) && Readable(t, st.pal)
    ensures Lays(v, t, st, depth)
    decreases t, 2
  {
    hide *;
    ReadableParts(t, st.pal);
    match t
    case Arr(items) => v := ArrayLayout(items, st, depth);
    case Obj(pairs) => v := ObjectLayout(pairs, st, depth);
    case _ => v := LeafLayout(t, st, depth);
  }

  lemma ReadableParts(t: Json, pal: Pal)
    requires Proper(t) && Readable(t, pal)
    ensures t.Arr? ==> forall k :: 0 <= k < |t.items| ==> Proper(t.items[k]) && Readable(t.items[k], pal)
    ensures t.Obj? ==> forall k :: 0 <= k < |t.pairs| ==> ProperPair(t.pairs[k]) && ReadablePair(t.pairs[k], pal)
  {}

  lemma LeafLayout(t: Json, st: Style, depth: nat) returns (v: G.Value)
    requires ValueOut(t, st, depth).error.None? && Proper(t) && Readable(t, st.pal) && !t.Arr? && !t.Obj?
    ensures Lays(v, t, st, depth)
  {
    hide StringOut, CharsText, CharsMeaning, WellFormedChars, NumberValue, FloatOut, IntText, ValidUtf8, Parts, NumText,
      WellFormedNumber;
    match t
    case Null => v := G.LitNull;
    case Bool(b) => v := if b then G.LitTrue else G.LitFalse;
    case Int(i) =>
      var n := IntTextIsNumber(i, st.pal, 0, IntText(i));
      v := G.LitNumber(n);
    case Float(f) =>
      v := FloatLayout(f, st, depth);
    case Str(s) =>
      QuotedParts(s, st.opts.asciiOnly);
      var cs := StringLayout(s, 0, st.opts.asciiOnly);
      assert s[0..] == s;
      v := G.LitString(cs);
  }

  lemma FloatLayout(f: Double, st: Style, depth: nat) returns (v: G.Value)
    requires FaithfulFloat(f, st.pal) && depth < st.maxDepth
    ensures Lays(v, Float(f), st, depth)
  {
    hide *;
    var n := SomeRendering(f, st.pal);
    var m := RenderedText(n, f, st.pal);
    RenderingReads(n, m, f, st.pal);
    v := G.LitNumber(m);
    RenderingLays(m, f, st, depth);
  }

  lemma SomeRendering(f: Double, pal: Pal) returns (n: NumberText)
    requires FaithfulFloat(f, pal)
    ensures IsRendering(n, f, pal) && WellFormedNumber(n) && pal.format(f) == Some(NumText(n)) && |NumText(n)| + 2 < 32
  {
    n :| IsRendering(n, f, pal);
  }

  lemma RenderingReads(n: NumberText, m: NumberText, f: Double, pal: Pal)
    requires IsRendering(n, f, pal) && WellFormedNumber(n)
    requires WellFormedNumber(m) && WritesDouble(m) && m.minus == n.minus && TextValue(m) == TextValue(n)
    ensures ReadsAs(m, f, pal)
  {
    hide WellFormedNumber, TextValue, ReadsAs;
    assert NumText(m) == NumText(m);
  }

  lemma RenderingLays(m: NumberText, f: Double, st: Style, depth: nat)
    requires WellFormedNumber(m) && FloatOut(f, st.pal) == Done(NumText(m)) && ReadsAs(m, f, st.pal)
    requires depth < st.maxDepth
    ensures Lays(G.LitNumber(m), Float(f), st, depth)
  {
    hide WellFormedNumber, NumText, FloatOut, WellFormedLexeme, Parts, NumberValue;
  }

  lemma QuotedParts(s: bytes, ascii: bool)
    requires QuotedOut(s, ascii).error.None?
    ensures StringOut(s, 0, ascii).error.None?
    ensures QuotedOut(s, ascii).text == [QUOTE] + (StringOut(s, 0, ascii).text + [QUOTE])
  {}

  lemma {:induction false} ArrayLayout(items: seq<Json>, st: Style, depth: nat) returns (v: G.Value)
    requires ValueOut(Arr(items), st, depth).error.None?
    requires forall k :: 0 <= k < |items| ==> Proper(items[k]) && Readable(items[k], st.pal)
    ensures Lays(v, Arr(items), st, depth)
    decreases items, 1
  {
    if items == [] {
      v := EmptyArrayLays(st, depth);
    } else {
      hide *;
      ArrayParts(items, st, depth);
      ItemsParts(items, 0, st, depth + 1);
      var first := ValueLayout(items[0], st, depth + 1);
      var rest := ItemsLayout(items, 1, st, depth + 1);
      v := ArrayLays(items, first, rest, st, depth);
    }
  }

  lemma EmptyArrayLays(st: Style, depth: nat) returns (v: G.Value)
    requires ValueOut(Arr([]), st, depth).error.None?
    ensures Lays(v, Arr([]), st, depth)
  {
    v := G.EmptyArray(NO_PAD, NO_PAD);
  }

  /** A complete array: the text of its items between the brackets. */
  lemma ArrayParts(items: seq<Json>, st: Style, depth: nat)
    requires ValueOut(Arr(items), st, depth).error.None?
    ensures var body := ItemsOut(items, st, depth + 1);
      body.error.None? && ValueOut(Arr(items), st, depth).text
        == [LBRACKET] + (body.text + (CloseBreak(st, depth, |items|) + [RBRACKET]))
  {}

  /** Item number k of a complete array and what is written before it. */
  lemma ItemsParts(items: seq<Json>, k: nat, st: Style, depth: nat)
    requires ItemsOut(items, st, depth).error.None? && k < |items|
    ensures ValueOut(items[k], st, depth).error.None?
    ensures ItemsOut(items[..k + 1], st, depth).text
      == ItemsOut(items[..k], st, depth).text + ((Sep(k) + LineBreak(st, depth)) + ValueOut(items[k], st, depth).text)
    ensures ItemsOut(items[..0], st, depth).text == []
  {
    hide ItemsOut, ValueOut, LineBreak;
    ItemsPrefix(items[..k + 1], items, st, depth);
    assert items[..k + 1] == items[..k] + [items[k]];
    ItemsSnoc(items[..k], items[k], st, depth);
    NothingOut(st, depth);
  }

  ghost predicate LaysItems(tail: G.Items, items: seq<Json>, k: nat, st: Style, depth: nat)
    requires k <= |items|
  {
    && G.WellFormedItems(tail) && StyledItems(tail, st.opts, depth)
    && G.ItemsMeaning(tail, st.pal) == Some(items[k..])
    && ItemsOut(items, st, depth).text == ItemsOut(items[..k], st, depth).text + G.ItemsText(tail)
  }

  lemma {:induction false} ItemsLayout(items: seq<Json>, k: nat, st: Style, depth: nat) returns (tail: G.Items)
    requires 1 <= k <= |items| && ItemsOut(items, st, depth).error.None?
    requires forall j :: 0 <= j < |items| ==> Proper(items[j]) && Readable(items[j], st.pal)
    ensures LaysItems(tail, items, k, st, depth)
    decreases items, 0, |items| - k
  {
    hide *;
    if k == |items| {
      tail := NoMoreItems(items, st, depth);
    } else {
      ItemsParts(items, k, st, depth);
      var v := ValueLayout(items[k], st, depth);
      var more := ItemsLayout(items, k + 1, st, depth);
      tail := MoreItemsLay(items, k, v, more, st, depth);
    }
  }

  lemma NoMoreItems(items: seq<Json>, st: Style, depth: nat) returns (tail: G.Items)
    ensures LaysItems(tail, items, |items|, st, depth)
  {
    tail := G.NoItems;
    assert items[..|items|] == items && items[|items|..] == [];
    assert ItemsOut(items, st, depth).text + [] == ItemsOut(items, st, depth).text;
  }

  lemma MoreItemsLay(items: seq<Json>, k: nat, v: G.Value, more: G.Items, st: Style, depth: nat) returns (tail: G.Items)
    requires 1 <= k < |items| && Lays(v, items[k], st, depth) && LaysItems(more, items, k + 1, st, depth)
    requires ItemsOut(items[..k + 1], st, depth).text
      == ItemsOut(items[..k], st, depth).text + ((Sep(k) + LineBreak(st, depth)) + ValueOut(items[k], st, depth).text)
    ensures LaysItems(tail, items, k, st, depth)
  {
    hide ItemsOut, ValueOut, LineBreak, G.ValueText, G.WellFormed, G.Meaning;
    BreakIsWs(st, depth);
    tail := G.MoreItems(BreakPad(st, depth), v, more);
    assert G.WellFormedItems(tail);
    assert G.ItemsMeaning(tail, st.pal) == Some([items[k]] + items[k + 1..]);
    assert G.ItemsText(tail) == ([] + ([COMMA] + LineBreak(st, depth))) + (G.ValueText(v) + G.ItemsText(more));
    assert items[k..] == [items[k]] + items[k + 1..];
    var a, b, c, d := ItemsOut(items[..k], st, depth).text, LineBreak(st, depth), G.ValueText(v), G.ItemsText(more);
    assert (a + (([COMMA] + b) + c)) + d == a + (([] + ([COMMA] + b)) + (c + d));
  }

  lemma ArrayLays(items: seq<Json>, first: G.Value, rest: G.Items, st: Style, depth: nat) returns (v: G.Value)
    requires items != [] && Lays(first, items[0], st, depth + 1) && LaysItems(rest, items, 1, st, depth + 1)
    requires ItemsOut(items[..0], st, depth + 1).text == []
    requires ItemsOut(items[..0 + 1], st, depth + 1).text
      == ItemsOut(items[..0], st, depth + 1).text
         + ((Sep(0) + LineBreak(st, depth + 1)) + ValueOut(items[0], st, depth + 1).text)
    requires ValueOut(Arr(items), st, depth).text
      == [LBRACKET] + (ItemsOut(items, st, depth + 1).text + (CloseBreak(st, depth, |items|) + [RBRACKET]))
    ensures Lays(v, Arr(items), st, depth)
  {
    hide ItemsOut, ValueOut, LineBreak, G.ItemsText, G.WellFormedItems, G.ItemsMeaning, G.WellFormed, G.Meaning,
      G.ValueText, G.TokenText;
    BreakIsWs(st, depth);
    BreakIsWs(st, depth + 1);
    v := G.Array(BreakPad(st, depth + 1), first, rest, G.Pad(LineBreak(st, depth), []));
    assert items == [items[0]] + items[1..];
    ArrayMeans(v, items, st.pal);
    EnclosedText(LBRACKET, LineBreak(st, depth + 1), G.ValueText(first), G.ItemsText(rest), LineBreak(st, depth),
                  RBRACKET);
  }

  lemma ArrayMeans(v: G.Value, items: seq<Json>, pal: Pal)
    requires v.Array? && G.WellFormedPad(v.open) && G.WellFormedPad(v.close)
    requires G.WellFormed(v.first) && G.Meaning(v.first, pal).Some? && G.WellFormedItems(v.rest)
      && G.ItemsMeaning(v.rest, pal).Some?
    requires items == [G.Meaning(v.first, pal).value] + G.ItemsMeaning(v.rest, pal).value
    ensures G.WellFormed(v) && G.Meaning(v, pal) == Some(Arr(items))
    ensures G.ValueText(v) == G.TokenText(v.open, LBRACKET)
      + (G.ValueText(v.first) + (G.ItemsText(v.rest) + G.TokenText(v.close, RBRACKET)))
  {}

  lemma ObjectMeans(v: G.Value, pairs: seq<Pair>, pal: Pal)
    requires v.Object? && G.WellFormedPad(v.open) && G.WellFormedPad(v.close)
    requires G.WellFormedMember(v.head) && G.MemberMeaning(v.head, pal).Some?
    requires G.WellFormedMembers(v.tail) && G.MembersMeaning(v.tail, pal).Some?
    requires pairs == [G.MemberMeaning(v.head, pal).value] + G.MembersMeaning(v.tail, pal).value
    ensures G.WellFormed(v) && G.Meaning(v, pal) == Some(Obj(pairs))
    ensures G.ValueText(v) == G.TokenText(v.open, LBRACE)
      + (G.MemberText(v.head) + (G.MembersText(v.tail) + G.TokenText(v.close, RBRACE)))
  {}

  /** The same text bracketed in two ways. */
  lemma EnclosedText(open: byte, a: bytes, b: bytes, c: bytes, d: bytes, close: byte)
    ensures [open] + ((([] + (([] + a) + b)) + c) + (d + [close]))
         == G.TokenText(G.Pad([], a), open) + (b + (c + G.TokenText(G.Pad(d, []), close)))
  {
    var x, y := [open], [close];
    assert G.TokenText(G.Pad([], a), open) == x + a;
    assert G.TokenText(G.Pad(d, []), close) == d + y;
    assert x + (((a + b) + c) + (d + y)) == (x + a) + (b + (c + (d + y)));
    assert ([] + (([] + a) + b)) == a + b;
  }

  lemma {:induction false} ObjectLayout(pairs: seq<Pair>, st: Style, depth: nat) returns (v: G.Value)
    requires ValueOut(Obj(pairs), st, depth).error.None?
    requires forall k :: 0 <= k < |pairs| ==> ProperPair(pairs[k]) && ReadablePair(pairs[k], st.pal)
    ensures Lays(v, Obj(pairs), st, depth)
    decreases pairs, 1
  {
    if pairs == [] {
      v := EmptyObjectLays(st, depth);
    } else {
      hide *;
      ObjectParts(pairs, st, depth);
      PairsParts(pairs, 0, st, depth + 1);
      var first := MemberLayout(pairs[0], st, depth + 1);
      var rest := MembersLayout(pairs, 1, st, depth + 1);
      v := ObjectLays(pairs, first, rest, st, depth);
    }
  }

  lemma EmptyObjectLays(st: Style, depth: nat) returns (v: G.Value)
    requires ValueOut(Obj([]), st, depth).error.None?
    ensures Lays(v, Obj([]), st, depth)
  {
    v := G.EmptyObject(NO_PAD, NO_PAD);
  }

  lemma ObjectParts(pairs: seq<Pair>, st: Style, depth: nat)
    requires ValueOut(Obj(pairs), st, depth).error.None?
    ensures var body := PairsOut(pairs, st, depth + 1);
      body.error.None? && ValueOut(Obj(pairs), st, depth).text
        == [LBRACE] + (body.text + (CloseBreak(st, depth, |pairs|) + [RBRACE]))
  {}

  lemma PairsParts(pairs: seq<Pair>, k: nat, st: Style, depth: nat)
    requires PairsOut(pairs, st, depth).error.None? && k < |pairs|
    ensures ValueOut(pairs[k].val, st, depth).error.None?
    ensures PairsOut(pairs[..k + 1], st, depth).text
      == PairsOut(pairs[..k], st, depth).text + ((Sep(k) + LineBreak(st, depth)) + PairText(pairs[k], st, depth))
    ensures PairsOut(pairs[..0], st, depth).text == []
  {
    hide PairsOut, ValueOut, LineBreak, KeyText;
    PairsPrefix(pairs[..k + 1], pairs, st, depth);
    assert pairs[..k + 1] == pairs[..k] + [pairs[k]];
    PairsSnoc(pairs[..k], pairs[k], st, depth);
    NothingOut(st, depth);
    var a, b, c := Sep(k) + LineBreak(st, depth), KeyText(pairs[k].key, st), ValueOut(pairs[k].val, st, depth).text;
    assert (a + b) + c == a + (b + c);
  }

  /** A member without its separator. */
  function PairText(p: Pair, st: Style, depth: nat): bytes { KeyText(p.key, st) + ValueOut(p.val, st, depth).text }

  ghost predicate LaysMember(m: G.Member, p: Pair, st: Style, depth: nat) {
    && G.WellFormedMember(m) && StyledMember(m, st.opts, depth)
    && G.MemberText(m) == PairText(p, st, depth) && G.MemberMeaning(m, st.pal) == Some(p)
  }

  lemma {:induction false} MemberLayout(p: Pair, st: Style, depth: nat) returns (m: G.Member)
    requires ValueOut(p.val, st, depth).error.None? && ProperPair(p) && ReadablePair(p, st.pal)
    ensures LaysMember(m, p, st, depth)
    decreases p, 0
  {
    hide *;
    MemberParts(p, st);
    var key := StringLayout(p.key, 0, st.opts.asciiOnly);
    var v := ValueLayout(p.val, st, depth);
    m := MemberLays(p, key, v, st, depth);
  }

  lemma MemberParts(p: Pair, st: Style)
    requires ProperPair(p) && ReadablePair(p, st.pal)
    ensures Proper(p.val) && Readable(p.val, st.pal) && StringOut(p.key, 0, st.opts.asciiOnly).error.None?
  {
    ValidContent(p.key, 0, st.opts.asciiOnly);
  }

  lemma MemberLays(p: Pair, key: seq<StrChar>, v: G.Value, st: Style, depth: nat) returns (m: G.Member)
    requires Lays(v, p.val, st, depth) && WellFormedChars(key) && StyledChars(key, st.opts.asciiOnly)
    requires CharsText(key) == StringOut(p.key, 0, st.opts.asciiOnly).text && CharsMeaning(key) == p.key[0..]
    ensures LaysMember(m, p, st, depth)
  {
    hide ValueOut, G.ValueText, G.WellFormed, G.Meaning, CharsText, CharsMeaning, StringOut, WellFormedChars;
    m := G.Member(key, G.Pad([], if st.opts.pretty then [SPACE] else []), v);
    assert p.key[0..] == p.key;
    var a, b, c, q := CharsText(key), ColonText(st), G.ValueText(v), [QUOTE];
    assert (q + a + q + b) + c == (q + (a + q)) + (([] + b) + c);
  }

  ghost predicate LaysMembers(ms: G.Members, pairs: seq<Pair>, k: nat, st: Style, depth: nat)
    requires k <= |pairs|
  {
    && G.WellFormedMembers(ms) && StyledMembers(ms, st.opts, depth)
    && G.MembersMeaning(ms, st.pal) == Some(pairs[k..])
    && PairsOut(pairs, st, depth).text == PairsOut(pairs[..k], st, depth).text + G.MembersText(ms)
  }

  lemma {:induction false} MembersLayout(pairs: seq<Pair>, k: nat, st: Style, depth: nat) returns (ms: G.Members)
    requires 1 <= k <= |pairs| && PairsOut(pairs, st, depth).error.None?
    requires forall j :: 0 <= j < |pairs| ==> ProperPair(pairs[j]) && ReadablePair(pairs[j], st.pal)
    ensures LaysMembers(ms, pairs, k, st, depth)
    decreases pairs, 0, |pairs| - k
  {
    hide *;
    if k == |pairs| {
      ms := NoMoreMembers(pairs, st, depth);
    } else {
      PairsParts(pairs, k, st, depth);
      var m := MemberLayout(pairs[k], st, depth);
      var more := MembersLayout(pairs, k + 1, st, depth);
      ms := MoreMembersLay(pairs, k, m, more, st, depth);
    }
  }

  lemma NoMoreMembers(pairs: seq<Pair>, st: Style, depth: nat) returns (ms: G.Members)
    ensures LaysMembers(ms, pairs, |pairs|, st, depth)
  {
    ms := G.NoMembers;
    assert pairs[..|pairs|] == pairs && pairs[|pairs|..] == [];
    assert PairsOut(pairs, st, depth).text + [] == PairsOut(pairs, st, depth).text;
  }

  lemma MoreMembersLay(pairs: seq<Pair>, k: nat, m: G.Member, more: G.Members, st: Style, depth: nat)
    returns (ms: G.Members)
    requires 1 <= k < |pairs| && LaysMember(m, pairs[k], st, depth) && LaysMembers(more, pairs, k + 1, st, depth)
    requires PairsOut(pairs[..k + 1], st, depth).text
      == PairsOut(pairs[..k], st, depth).text + ((Sep(k) + LineBreak(st, depth)) + PairText(pairs[k], st, depth))
    ensures LaysMembers(ms, pairs, k, st, depth)
  {
    hide PairsOut, PairText, LineBreak, G.MemberText, G.WellFormedMember, G.MemberMeaning;
    BreakIsWs(st, depth);
    ms := G.MoreMembers(BreakPad(st, depth), m, more);
    assert G.WellFormedMembers(ms);
    assert G.MembersMeaning(ms, st.pal) == Some([pairs[k]] + pairs[k + 1..]);
    assert G.MembersText(ms) == ([] + ([COMMA] + LineBreak(st, depth))) + (G.MemberText(m) + G.MembersText(more));
    assert pairs[k..] == [pairs[k]] + pairs[k + 1..];
    var a, b, c, d := PairsOut(pairs[..k], st, depth).text, LineBreak(st, depth), G.MemberText(m), G.MembersText(more);
    assert (a + (([COMMA] + b) + c)) + d == a + (([] + ([COMMA] + b)) + (c + d));
  }

  lemma ObjectLays(pairs: seq<Pair>, first: G.Member, rest: G.Members, st: Style, depth: nat) returns (v: G.Value)
    requires pairs != [] && LaysMember(first, pairs[0], st, depth + 1) && LaysMembers(rest, pairs, 1, st, depth + 1)
    requires PairsOut(pairs[..0], st, depth + 1).text == []
    requires PairsOut(pairs[..0 + 1], st, depth + 1).text
      == PairsOut(pairs[..0], st, depth + 1).text
         + ((Sep(0) + LineBreak(st, depth + 1)) + PairText(pairs[0], st, depth + 1))
    requires ValueOut(Obj(pairs), st, depth).text
      == [LBRACE] + (PairsOut(pairs, st, depth + 1).text + (CloseBreak(st, depth, |pairs|) + [RBRACE]))
    ensures Lays(v, Obj(pairs), st, depth)
  {
    hide PairsOut, ValueOut, PairText, LineBreak, G.MembersText, G.WellFormedMembers, G.MembersMeaning, G.MemberText,
      G.WellFormedMember, G.MemberMeaning, G.WellFormed, G.Meaning, G.ValueText, G.TokenText;
    BreakIsWs(st, depth);
    BreakIsWs(st, depth + 1);
    v := G.Object(BreakPad(st, depth + 1), first, rest, G.Pad(LineBreak(st, depth), []));
    assert pairs == [pairs[0]] + pairs[1..];
    ObjectMeans(v, pairs, st.pal);
    EnclosedText(LBRACE, LineBreak(st, depth + 1), G.MemberText(first), G.MembersText(rest), LineBreak(st, depth),
                  RBRACE);
  }

  /**
    * What json_write writes derives the value it wrote in the grammar of RFC 8259, with the whitespace
    * and the escapes that the options say and no others.
    */
  lemma WrittenTextDerives(t: Json, st: Style) returns (d: G.Document)
    requires DocumentOut(t, st).error.None? && Proper(t) && Readable(t, st.pal)
    ensures G.IsDerivation(d, DocumentOut(t, st).text, t, st.pal) && StyledDocument(d, st.opts)
  {
    var v := ValueLayout(t, st, 0);
    hide ValueOut, G.ValueText, G.WellFormed, G.Meaning;
    var end: bytes := if st.opts.trailingNl then [NEWLINE] else [];
    d := G.Document([], v, end);
    assert [] + (G.ValueText(v) + end) == G.ValueText(v) + end;
    assert G.IsDerivation(d, DocumentOut(t, st).text, t, st.pal);
  }

  lemma DerivedBy(d: G.Document, t: Json, st: Style)
    requires G.IsDerivation(d, DocumentOut(t, st).text, t, st.pal)
    ensures G.Derives(DocumentOut(t, st).text, t, st.pal)
  {}

  // ---------- what arranging keeps ----------

  lemma {:induction false} SumHead(f: nat -> nat, s: seq<nat>)
    requires s != []
    ensures Sum(f, s) == f(s[0]) + Sum(f, s[1..])
  {
    SumRemove(f, s, 0);
    assert s[..0] + s[0 + 1..] == s[1..];
  }

  lemma {:induction false} PairNodesSum(ps: seq<Pair>, f: nat -> nat, o: seq<nat>)
    requires |o| == |ps| && forall k :: 0 <= k < |ps| ==> Nodes(ps[k].val) == f(o[k])
    ensures PairNodes(ps) == Sum(f, o)
    decreases |ps|
  {
    if ps != [] {
      PairNodesSum(ps[1..], f, o[1..]);
      SumHead(f, o);
    }
  }

  lemma SamePairNodes(pairs: seq<Pair>, qs: seq<Pair>, order: seq<nat>)
    requires IsPermutation(order, |pairs|) && |qs| == |pairs| == |order|
    requires forall k :: 0 <= k < |order| ==> order[k] < |pairs|
    requires forall k :: 0 <= k < |qs| ==> Nodes(qs[k].val) == Nodes(pairs[order[k]].val)
    ensures PairNodes(qs) == PairNodes(pairs)
  {
    hide Nodes, PairNodes, IsPermutation, Sum;
    var f := (k: nat) => if k < |pairs| then Nodes(pairs[k].val) else 0;
    PairNodesSum(qs, f, order);
    PairNodesSum(pairs, f, Identity(|pairs|));
    SamePermutation(order, |pairs|);
    SumSame(f, order, Identity(|pairs|));
  }

  lemma {:induction false} SameItemNodes(items: seq<Json>, us: seq<Json>)
    requires |us| == |items| && forall k :: 0 <= k < |items| ==> Nodes(us[k]) == Nodes(items[k])
    ensures ItemNodes(us) == ItemNodes(items)
  {
    if items != [] { SameItemNodes(items[1..], us[1..]); }
  }

  /** Rearranging members adds and removes no node. */
  lemma {:induction false} SameNodes(t: Json, u: Json, sort: bool)
    requires Arranges(t, u, sort)
    ensures Nodes(u) == Nodes(t)
    decreases t
  {
    match t
    case Arr(items) =>
      forall k | 0 <= k < |items|
        ensures Nodes(u.items[k]) == Nodes(items[k])
      {
        SameNodes(items[k], u.items[k], sort);
      }
      SameItemNodes(items, u.items);
    case Obj(pairs) =>
      var order :| ArrangesBy(pairs, u.pairs, order, sort);
      forall k | 0 <= k < |u.pairs| ensures Nodes(u.pairs[k].val) == Nodes(pairs[order[k]].val) {
        assert ArrangedPair(pairs, u.pairs[k], order[k], sort);
        SameNodes(pairs[order[k]].val, u.pairs[k].val, sort);
      }
      SamePairNodes(pairs, u.pairs, order);
    case _ =>
  }

  lemma PairPlaces(pairs: seq<Pair>, qs: seq<Pair>, order: seq<nat>, sort: bool)
    requires ArrangesBy(pairs, qs, order, sort)
    ensures |qs| == |pairs| == |order| && IsPermutation(order, |pairs|)
    ensures forall k :: 0 <= k < |qs| ==> order[k] < |pairs| && ArrangedPair(pairs, qs[k], order[k], sort)
  {}

  lemma ArrangedParts(pairs: seq<Pair>, q: Pair, k: nat, sort: bool)
    requires ArrangedPair(pairs, q, k, sort)
    ensures k < |pairs| && q.key == pairs[k].key && Arranges(pairs[k].val, q.val, sort)
  {}

  lemma {:induction false} SameFit(t: Json, u: Json, sort: bool, l: Limits, level: nat)
    requires Arranges(t, u, sort)
    ensures Fits(u, l, level) <==> Fits(t, l, level)
    decreases t
  {
    match t
    case Arr(items) =>
      forall k | 0 <= k < |items| ensures Fits(u.items[k], l, level + 1) <==> Fits(items[k], l, level + 1) {
        SameFit(items[k], u.items[k], sort, l, level + 1);
      }
    case Obj(pairs) =>
      var order :| ArrangesBy(pairs, u.pairs, order, sort);
      PairPlaces(pairs, u.pairs, order, sort);
      hide Fits, Arranges, ArrangedPair, ArrangesBy, IsPermutation, WriteOrder;
      forall k | 0 <= k < |u.pairs|
        ensures PairFits(u.pairs[k], l, level + 1) <==> PairFits(pairs[order[k]], l, level + 1)
      {
        ArrangedParts(pairs, u.pairs[k], order[k], sort);
        SameFit(pairs[order[k]].val, u.pairs[k].val, sort, l, level + 1);
      }
      hide PairFits;
      forall j | 0 <= j < |pairs|
        ensures (forall k :: 0 <= k < |u.pairs| ==> PairFits(u.pairs[k], l, level + 1)) ==>
          PairFits(pairs[j], l, level + 1)
      {
        PermutationCovers(order, |pairs|, j);
        var k :| 0 <= k < |pairs| && order[k] == j;
        assert PairFits(u.pairs[k], l, level + 1) <==> PairFits(pairs[order[k]], l, level + 1);
      }
      ObjectFits(pairs, l, level);
      ObjectFits(u.pairs, l, level);
    case _ =>
  }

  lemma ObjectFits(pairs: seq<Pair>, l: Limits, level: nat)
    ensures Fits(Obj(pairs), l, level) <==>
      level + 1 < l.depth && |pairs| <= l.arrayLen && forall k :: 0 <= k < |pairs| ==> PairFits(pairs[k], l, level + 1)
  {}

  lemma {:induction false} SameQuality(t: Json, u: Json, sort: bool, pal: Pal)
    requires Arranges(t, u, sort) && Proper(t) && Readable(t, pal)
    ensures Proper(u) && Readable(u, pal)
    decreases t
  {
    match t
    case Arr(items) =>
      forall k | 0 <= k < |items| ensures Proper(u.items[k]) && Readable(u.items[k], pal) {
        SameQuality(items[k], u.items[k], sort, pal);
      }
    case Obj(pairs) =>
      var order :| ArrangesBy(pairs, u.pairs, order, sort);
      forall k | 0 <= k < |u.pairs| ensures ProperPair(u.pairs[k]) && ReadablePair(u.pairs[k], pal) {
        assert ArrangedPair(pairs, u.pairs[k], order[k], sort);
        assert ProperPair(pairs[order[k]]) && ReadablePair(pairs[order[k]], pal);
        SameQuality(pairs[order[k]].val, u.pairs[k].val, sort, pal);
      }
    case _ =>
  }

  // ---------- the round trip ----------

  /** Every value of the tree lies at a level below `maxDepth`. */
  predicate Shallow(t: Json, maxDepth: nat, level: nat)
    decreases t
  {
    level < maxDepth && match t
      case Arr(items) => forall k :: 0 <= k < |items| ==> Shallow(items[k], maxDepth, level + 1)
      case Obj(pairs) => forall k :: 0 <= k < |pairs| ==> ShallowPair(pairs[k], maxDepth, level + 1)
      case _ => true
  }

  predicate ShallowPair(p: Pair, maxDepth: nat, level: nat)
    decreases p
  {
    Shallow(p.val, maxDepth, level)
  }

  /** The only thing that stops the writer, given the room, is depth. */
  lemma {:induction false} WritableIff(t: Json, st: Style, level: nat)
    requires Readable(t, st.pal)
    ensures ValueOut(t, st, level).error.None? <==> Shallow(t, st.maxDepth, level)
    decreases t
  {
    match t
    case Arr(items) =>
      forall k | 0 <= k < |items|
        ensures ValueOut(items[k], st, level + 1).error.None? <==> Shallow(items[k], st.maxDepth, level + 1)
      {
        WritableIff(items[k], st, level + 1);
      }
      ItemsClean(items, st, level + 1);
    case Obj(pairs) =>
      forall k | 0 <= k < |pairs|
        ensures ValueOut(pairs[k].val, st, level + 1).error.None? <==> ShallowPair(pairs[k], st.maxDepth, level + 1)
      {
        assert ReadablePair(pairs[k], st.pal);
        WritableIff(pairs[k].val, st, level + 1);
      }
      PairsClean(pairs, st, level + 1);
    case Str(s) => ValidContent(s, 0, st.opts.asciiOnly);
    case _ =>
  }

  /** The parser's limits are stricter than the writer's. */
  lemma {:induction false} FitsShallow(t: Json, l: Limits, level: nat)
    requires Fits(t, l, level) && level < l.depth
    ensures Shallow(t, l.depth, level)
    decreases t
  {
    match t
    case Arr(items) =>
      forall k | 0 <= k < |items| ensures Shallow(items[k], l.depth, level + 1) { FitsShallow(items[k], l, level + 1); }
    case Obj(pairs) =>
      forall k | 0 <= k < |pairs| ensures ShallowPair(pairs[k], l.depth, level + 1) {
        assert PairFits(pairs[k], l, level + 1);
        FitsShallow(pairs[k].val, l, level + 1);
      }
    case _ =>
  }

  lemma {:induction false} ItemsClean(items: seq<Json>, st: Style, depth: nat)
    ensures ItemsOut(items, st, depth).error.None?
      <==> forall k :: 0 <= k < |items| ==> ValueOut(items[k], st, depth).error.None?
    decreases |items|
  {
    hide LineBreak, ValueOut, ItemsOut;
    NothingOut(st, depth);
    if items != [] {
      ItemsClean(items[..|items| - 1], st, depth);
      ItemsLast(items, st, depth);
    }
  }

  /**
    * Round trip. Let `u` be the value as it was written: the value itself, or with `sort_keys` the value
    * with the members of every object sorted. Parsing the complete output gives back `u`, whatever the
    * options, exactly when the value is within the parser's limits.
    */
  lemma WriteThenParse(t: Json, u: Json, st: Style, l: Limits, n: nat)
    requires Arranges(t, u, st.opts.sortKeys) && DocumentOut(u, st).error.None? && Proper(t) && Readable(t, st.pal)
    ensures var r := ParseDocument(Env(DocumentOut(u, st).text, l, st.pal), n);
      && (r.Ok? <==> Fits(t, l, 0) && n + Nodes(t) <= l.nodes)
      && (r.Ok? ==> r.value.value == u && r.value.nodes == n + Nodes(t))
  {
    hide *;
    SameQuality(t, u, st.opts.sortKeys, st.pal);
    SameNodes(t, u, st.opts.sortKeys);
    SameFit(t, u, st.opts.sortKeys, l, 0);
    var d := WrittenTextDerives(u, st);
    assert G.Derives(DocumentOut(u, st).text, u, st.pal) by { DerivedBy(d, u, st); }
    var e := Env(DocumentOut(u, st).text, l, st.pal);
    ParseIffDerives(e, n, u);
    if ParseDocument(e, n).Ok? {
      ParseIffDerives(e, n, ParseDocument(e, n).value.value);
      Unambiguous(e.src, ParseDocument(e, n).value.value, u, st.pal);
    }
  }

  /** Values within the parser's limits are written completely, in every arrangement. */
  lemma LimitsSuffice(t: Json, u: Json, st: Style, l: Limits)
    requires Arranges(t, u, st.opts.sortKeys) && Readable(t, st.pal)
    requires Fits(t, l, 0) && 0 < l.depth == st.maxDepth
    ensures DocumentOut(u, st).error.None?
  {
    FitsShallow(t, l, 0);
    WritableIff(t, st, 0);
    hide ValueOut;
    SameLength(t, u, st.opts.sortKeys, st, 0);
  }

  /** Arrays around an empty array, `n` of them. */
  function Nest(n: nat): Json {
    if n == 0 then Arr([]) else Arr([Nest(n - 1)])
  }

  lemma {:induction false} NestFacts(n: nat, st: Style, l: Limits, level: nat, sort: bool)
    ensures Arranges(Nest(n), Nest(n), sort) && Proper(Nest(n)) && Readable(Nest(n), st.pal)
    ensures Shallow(Nest(n), st.maxDepth, level) <==> level + n < st.maxDepth
    ensures level + n + 1 >= l.depth ==> !Fits(Nest(n), l, level)
    decreases n
  {
    if n > 0 {
      NestFacts(n - 1, st, l, level + 1, sort);
      assert Nest(n).items[0] == Nest(n - 1);
    }
  }

  /** The parser refuses something that the writer writes, at every depth limit: an empty array at the last level. */
  lemma WriterOutrunsParser(st: Style, l: Limits, n: nat)
    requires st.maxDepth == l.depth >= 1
    ensures DocumentOut(Nest(l.depth - 1), st).error.None?
    ensures ParseDocument(Env(DocumentOut(Nest(l.depth - 1), st).text, l, st.pal), n).Err?
  {
    var t := Nest(l.depth - 1);
    NestFacts(l.depth - 1, st, l, 0, st.opts.sortKeys);
    WritableIff(t, st, 0);
    hide *;
    DocumentClean(t, st);
    WriteThenParse(t, t, st, l, n);
  }

  lemma DocumentClean(t: Json, st: Style)
    ensures DocumentOut(t, st).error.None? <==> ValueOut(t, st, 0).error.None?
  {}

  // ---------- parsed values ----------

  /** Every double in the tree survives rendering; a tree without doubles has nothing to show. */
  ghost predicate FaithfulFloats(t: Json, pal: Pal)
    decreases t
  {
    match t
    case Float(f) => FaithfulFloat(f, pal)
    case Arr(items) => forall k :: 0 <= k < |items| ==> FaithfulFloats(items[k], pal)
    case Obj(pairs) => forall k :: 0 <= k < |pairs| ==> FaithfulPair(pairs[k], pal)
    case _ => true
  }

  ghost predicate FaithfulPair(p: Pair, pal: Pal)
    decreases p
  {
    FaithfulFloats(p.val, pal)
  }

  lemma {:induction false} NoFloatIsFaithful(t: Json, pal: Pal)
    requires NoFloat(t)
    ensures FaithfulFloats(t, pal)
    decreases t
  {
    match t
    case Arr(items) =>
      forall k | 0 <= k < |items| ensures FaithfulFloats(items[k], pal) { NoFloatIsFaithful(items[k], pal); }
    case Obj(pairs) =>
      forall k | 0 <= k < |pairs| ensures FaithfulPair(pairs[k], pal) {
        assert NoFloatPair(pairs[k]);
        NoFloatIsFaithful(pairs[k].val, pal);
      }
    case _ =>
  }

  /** What every value built by the parser satisfies, but for the doubles in it. */
  ghost predicate Sound(t: Json, pal: Pal) { Proper(t) && (FaithfulFloats(t, pal) ==> Readable(t, pal)) }

  ghost predicate SoundPair(p: Pair, pal: Pal) {
    ProperPair(p) && (FaithfulPair(p, pal) ==> ReadablePair(p, pal))
  }

  lemma ArraySound(ts: seq<Json>, pal: Pal)
    requires forall k :: 0 <= k < |ts| ==> Sound(ts[k], pal)
    ensures Sound(Arr(ts), pal)
  {}

  lemma ObjectSound(ps: seq<Pair>, pal: Pal)
    requires forall k :: 0 <= k < |ps| ==> SoundPair(ps[k], pal)
    ensures Sound(Obj(ps), pal)
  {
    hide ReadablePair, FaithfulPair, ProperPair;
  }

  lemma NumberSound(n: NumberText, pal: Pal)
    requires WellFormedNumber(n) && G.Meaning(G.LitNumber(n), pal).Some?
    ensures Sound(G.Meaning(G.LitNumber(n), pal).value, pal)
  {
    hide FaithfulFloat, FastOk, Mantissa, Exp10;
  }

  /** The meaning of a derivation has 64-bit integers, and valid UTF-8 in its strings and keys. */
  lemma {:induction false} MeaningIsSound(v: G.Value, pal: Pal)
    requires G.WellFormed(v) && G.Meaning(v, pal).Some?
    ensures Sound(G.Meaning(v, pal).value, pal)
    decreases v
  {
    match v
    case LitNumber(num) => NumberSound(num, pal);
    case LitString(chars) => MeaningIsUtf8(chars);
    case Array(_, first, rest, _) =>
      MeaningIsSound(first, pal);
      ItemsAreSound(rest, pal);
      ArraySound([G.Meaning(first, pal).value] + G.ItemsMeaning(rest, pal).value, pal);
    case Object(_, head, tail, _) =>
      MemberIsSound(head, pal);
      MembersAreSound(tail, pal);
      ObjectSound([G.MemberMeaning(head, pal).value] + G.MembersMeaning(tail, pal).value, pal);
    case _ =>
  }

  lemma {:induction false} ItemsAreSound(items: G.Items, pal: Pal)
    requires G.WellFormedItems(items) && G.ItemsMeaning(items, pal).Some?
    ensures forall k :: 0 <= k < |G.ItemsMeaning(items, pal).value| ==> Sound(G.ItemsMeaning(items, pal).value[k], pal)
    decreases items
  {
    hide Sound;
    if items.MoreItems? {
      MeaningIsSound(items.item, pal);
      ItemsAreSound(items.items, pal);
    }
  }

  lemma {:induction false} MemberIsSound(m: G.Member, pal: Pal)
    requires G.WellFormedMember(m) && G.MemberMeaning(m, pal).Some?
    ensures SoundPair(G.MemberMeaning(m, pal).value, pal)
    decreases m
  {
    MeaningIsSound(m.val, pal);
    MeaningIsUtf8(m.key);
  }

  lemma {:induction false} MembersAreSound(ms: G.Members, pal: Pal)
    requires G.WellFormedMembers(ms) && G.MembersMeaning(ms, pal).Some?
    ensures forall k :: 0 <= k < |G.MembersMeaning(ms, pal).value| ==>
      SoundPair(G.MembersMeaning(ms, pal).value[k], pal)
    decreases ms
  {
    hide SoundPair;
    if ms.MoreMembers? {
      MemberIsSound(ms.member, pal);
      MembersAreSound(ms.members, pal);
    }
  }

  /** Everything the parser returns has 64-bit integers and valid UTF-8 strings and keys. */
  lemma ParsedIsSound(e: Env, n: nat)
    requires ParseDocument(e, n).Ok?
    ensures Sound(ParseDocument(e, n).value.value, e.pal)
  {
    hide ParseDocument, Sound, Fits, Nodes, G.DocumentText, G.Meaning, G.WellFormed;
    var d := DocumentSound(e, n);
    MeaningIsSound(d.value, e.pal);
  }

  /**
    * Every accepted text whose doubles survive rendering can be written, under every combination of
    * options, and the output is read back as the tree that was written, with the same node count.
    */
  lemma ParseWriteParse(e: Env, n: nat, u: Json, st: Style)
    requires st.pal == e.pal && st.maxDepth == e.l.depth >= 1
    requires ParseDocument(e, n).Ok? && FaithfulFloats(ParseDocument(e, n).value.value, e.pal)
    requires Arranges(ParseDocument(e, n).value.value, u, st.opts.sortKeys)
    ensures DocumentOut(u, st).error.None?
    ensures var again := ParseDocument(Env(DocumentOut(u, st).text, e.l, e.pal), n);
      again.Ok? && again.value.value == u && again.value.nodes == ParseDocument(e, n).value.nodes
  {
    hide *;
    var t := ParseDocument(e, n).value.value;
    ParsedIsSound(e, n);
    SoundParts(t, e.pal);
    ParseIffDerives(e, n, t);
    LimitsSuffice(t, u, st, e.l);
    WriteThenParse(t, u, st, e.l, n);
  }

  lemma SoundParts(t: Json, pal: Pal)
    requires Sound(t, pal) && FaithfulFloats(t, pal)
    ensures Proper(t) && Readable(t, pal)
  {}
}
