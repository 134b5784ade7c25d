/** Soundness: whatever the parser accepts derives the tree it returns, and that tree is within the limits. */
module ParserSound {
  import opened Base
  import opened Tree
  import opened StringLex
  import opened StringGrammar
  import opened Numbers
  import opened NumberGrammar
  import opened ParserSpec
  import opened Lexical
  import opened Grammar
  import opened ParserComplete

  // ---------- whitespace and tokens ----------

  /** The whitespace at s[i..]. */
  function WsRun(s: bytes, i: nat): bytes
    requires i <= |s|
  {
    s[i..SkipWs(s, i)]
  }

  lemma {:induction false} SkippedIsWs(s: bytes, i: nat)
    requires i <= |s|
    ensures Blank(s, i, SkipWs(s, i))
    decreases |s| - i
  {
    if i < |s| && IsWs(s[i]) { SkippedIsWs(s, i + 1); }
  }

  lemma WsRunSound(s: bytes, i: nat)
    requires i <= |s|
    ensures AllWs(WsRun(s, i)) && At(s, i, WsRun(s, i)) && i + |WsRun(s, i)| == SkipWs(s, i)
  {
    SkippedIsWs(s, i);
  }

  /** A structural character together with the whitespace before it. */
  lemma TokenSound(s: bytes, i: nat, c: byte) returns (p: Pad)
    requires i <= |s| && SkipWs(s, i) < |s| && s[SkipWs(s, i)] == c
    ensures WellFormedPad(p) && At(s, i, TokenText(p, c)) && i + |TokenText(p, c)| == SkipWs(s, i) + 1
  {
    hide At;
    WsRunSound(s, i);
    p := Pad(WsRun(s, i), []);
    AtNothing(s, SkipWs(s, i) + 1);
    AtByte(s, SkipWs(s, i), c);
    AtConcat(s, SkipWs(s, i), [c], []);
    AtConcat(s, i, p.before, [c] + p.after);
  }

  /** A structural character together with the whitespace on both sides. */
  lemma WideTokenSound(s: bytes, i: nat, c: byte) returns (p: Pad)
    requires i <= |s| && SkipWs(s, i) < |s| && s[SkipWs(s, i)] == c
    ensures WellFormedPad(p) && At(s, i, TokenText(p, c))
    ensures i + |TokenText(p, c)| == SkipWs(s, SkipWs(s, i) + 1)
  {
    hide At, WsRun;
    var m := SkipWs(s, i);
    WsRunSound(s, i);
    WsRunSound(s, m + 1);
    p := Pad(WsRun(s, i), WsRun(s, m + 1));
    AtByte(s, m, c);
    AtConcat(s, m, [c], p.after);
    AtConcat(s, i, p.before, [c] + p.after);
  }

  // ---------- scalars ----------

  lemma QuotedSound(s: bytes, pos: nat, maxLen: nat) returns (chars: seq<StrChar>)
    requires pos < |s| && s[pos] == QUOTE && StringAt(s, pos + 1, maxLen).Ok?
    ensures WellFormedChars(chars) && At(s, pos, QuotedText(chars))
    ensures StringAt(s, pos + 1, maxLen).value == Literal(CharsMeaning(chars), pos + |QuotedText(chars)|)
    ensures |CharsMeaning(chars)| <= maxLen
  {
    hide At, CharsText, CharsMeaning;
    chars := ContentSound(s, pos + 1);
    var end := pos + 1 + |CharsText(chars)|;
    AtByte(s, end, QUOTE);
    AtByte(s, pos, QUOTE);
    AtConcat(s, pos + 1, CharsText(chars), [QUOTE]);
    AtConcat(s, pos, [QUOTE], CharsText(chars) + [QUOTE]);
  }

  lemma NumberAtSound(s: bytes, pos: nat, pal: Pal) returns (num: NumberText)
    requires pos <= |s| && NumberAt(s, pos, pal).Ok?
    ensures WellFormedNumber(num) && At(s, pos, NumText(num))
    ensures Meaning(LitNumber(num), pal) == Some(NumberAt(s, pos, pal).value.value)
    ensures NumberAt(s, pos, pal).value.next == pos + |NumText(num)|
    ensures NumberAt(s, pos, pal).value.value.Int? || NumberAt(s, pos, pal).value.value.Float?
  {
    hide At, NumText, LexNumber;
    num := NumberSound(s, pos);
    AtSlice(s, pos, NumText(num));
    NextIgnored(num, pos + |NumText(num)|, NumText(num), pal);
  }

  // ---------- values ----------

  /** What soundness promises about the value parsed at s[pos..]. */
  ghost predicate Derived(e: Env, pos: nat, depth: nat, n: nat, r: Parsed, v: Value)
    requires pos <= |e.src|
  {
    && WellFormed(v) && At(e.src, SkipWs(e.src, pos), ValueText(v))
    && r.next == SkipWs(e.src, pos) + |ValueText(v)|
    && Meaning(v, e.pal) == Some(r.value)
    && depth >= 1 && Fits(r.value, e.l, depth - 1)
    && r.nodes == n + Nodes(r.value) <= e.l.nodes
  }

  /** What soundness promises about the rest of an array, read from s[pos..]. */
  ghost predicate DerivedItems(e: Env, pos: nat, depth: nat, n: nat, acc: seq<Json>, r: Parsed,
                               items: Items, close: Pad, ts: seq<Json>) {
    && WellFormedItems(items) && WellFormedPad(close)
    && At(e.src, pos, ItemsText(items) + TokenText(close, RBRACKET))
    && r.next == pos + |ItemsText(items) + TokenText(close, RBRACKET)|
    && ItemsMeaning(items, e.pal) == Some(ts) && r.value == Arr(acc + ts)
    && AllFit(ts, e.l, depth) && |acc| + |ts| <= e.l.arrayLen
    && r.nodes == n + ItemNodes(ts) <= e.l.nodes
  }

  ghost predicate DerivedMembers(e: Env, pos: nat, depth: nat, n: nat, acc: seq<Pair>, r: Parsed,
                                 ms: Members, close: Pad, ps: seq<Pair>) {
    && WellFormedMembers(ms) && WellFormedPad(close)
    && At(e.src, pos, MembersText(ms) + TokenText(close, RBRACE))
    && r.next == pos + |MembersText(ms) + TokenText(close, RBRACE)|
    && MembersMeaning(ms, e.pal) == Some(ps) && r.value == Obj(acc + ps)
    && AllPairsFit(ps, e.l, depth) && |acc| + |ps| <= e.l.arrayLen
    && r.nodes == n + PairNodes(ps) <= e.l.nodes
  }

  lemma {:induction false} ValueSound(e: Env, pos: nat, depth: nat, n: nat) returns (v: Value)
    requires pos <= |e.src| && depth >= 1 && ParseValue(e, pos, depth, n).Ok?
    ensures Derived(e, pos, depth, n, ParseValue(e, pos, depth, n).value, v)
    decreases |e.src| - pos, 3
  {
    hide *;
    var p := SkipWs(e.src, pos);
    SkipTwice(e.src, pos);
    SameStart(e, pos, p, depth, n);
    ParsedNonEmpty(e, pos, depth, n);
    if e.src[p] == LBRACKET {
      v := ArraySound(e, p, depth, n);
    } else if e.src[p] == LBRACE {
      v := ObjectSound(e, p, depth, n);
    } else {
      v := ScalarSound(e, p, depth, n);
    }
    DerivedBack(e, pos, p, depth, n, ParseValue(e, pos, depth, n).value, v);
  }

  lemma ParsedNonEmpty(e: Env, pos: nat, depth: nat, n: nat)
    requires pos <= |e.src| && ParseValue(e, pos, depth, n).Ok?
    ensures SkipWs(e.src, pos) < |e.src|
  {}

  lemma DerivedBack(e: Env, i: nat, q: nat, depth: nat, n: nat, r: Parsed, v: Value)
    requires i <= |e.src| && q == SkipWs(e.src, i) && SkipWs(e.src, q) == q && Derived(e, q, depth, n, r, v)
    ensures Derived(e, i, depth, n, r, v)
  {}

  lemma ScalarSound(e: Env, pos: nat, depth: nat, n: nat) returns (v: Value)
    requires pos <= |e.src| && depth >= 1 && ParseValue(e, pos, depth, n).Ok?
    requires e.src[SkipWs(e.src, pos)] != LBRACKET && e.src[SkipWs(e.src, pos)] != LBRACE
    ensures Derived(e, pos, depth, n, ParseValue(e, pos, depth, n).value, v)
  {
    hide At, StringAt, NumberAt, NumText, CharsText, CharsMeaning, NumberValue, ParseItem, ParseKey;
    var s, p := e.src, SkipWs(e.src, pos);
    var c := s[p];
    AtByte(s, p, c);
    if c == 0x6E {
      v := LitNull;
      AtConcat(s, p, [c], ULL);
    } else if c == 0x74 {
      v := LitTrue;
      AtConcat(s, p, [c], RUE);
    } else if c == 0x66 {
      v := LitFalse;
      AtConcat(s, p, [c], ALSE);
    } else if c == QUOTE {
      var chars := QuotedSound(s, p, e.l.stringLen);
      v := LitString(chars);
    } else {
      var num := NumberAtSound(s, p, e.pal);
      v := LitNumber(num);
    }
  }

  /** Unfolds one step of a successful array continuation. */
  lemma ItemUnfold(e: Env, pos: nat, depth: nat, n: nat, acc: seq<Json>)
    requires pos <= |e.src| && ParseItem(e, pos, depth, n, acc).Ok?
    ensures ParseValue(e, pos, depth + 1, n).Ok?
    ensures var r := ParseValue(e, pos, depth + 1, n).value;
      && pos < r.next <= |e.src| && |acc| < e.l.arrayLen
      && ParseItem(e, pos, depth, n, acc) == ArrayCont(e, r.next, depth, r.nodes, acc + [r.value])
  {}

  lemma ArrayContUnfold(e: Env, pos: nat, depth: nat, n: nat, acc: seq<Json>)
    requires pos <= |e.src| && ArrayCont(e, pos, depth, n, acc).Ok?
    ensures SkipWs(e.src, pos) < |e.src|
    ensures e.src[SkipWs(e.src, pos)] != RBRACKET ==>
      && e.src[SkipWs(e.src, pos)] == COMMA && depth < e.l.depth
      && ArrayCont(e, pos, depth, n, acc) == ParseItem(e, SkipWs(e.src, pos) + 1, depth, n, acc)
  {}

  /** An item and the rest of the array, put together. */
  lemma ItemJoin(e: Env, q: nat, depth: nat, n: nat, acc: seq<Json>, r: Parsed, v: Value,
                 end: Parsed, more: Items, close: Pad, rest: seq<Json>)
    requires q <= |e.src| && Derived(e, q, depth + 1, n, r, v)
    requires DerivedItems(e, r.next, depth, r.nodes, acc + [r.value], end, more, close, rest)
    ensures ItemNodes([r.value] + rest) == Nodes(r.value) + ItemNodes(rest)
    ensures AllFit([r.value] + rest, e.l, depth)
    ensures var w := ValueText(v) + (ItemsText(more) + TokenText(close, RBRACKET));
      At(e.src, SkipWs(e.src, q), w) && end.next == SkipWs(e.src, q) + |w|
    ensures end.value == Arr(acc + ([r.value] + rest)) && |acc| + 1 + |rest| <= e.l.arrayLen
    ensures end.nodes == n + Nodes(r.value) + ItemNodes(rest) <= e.l.nodes
    ensures WellFormed(v) && Meaning(v, e.pal) == Some(r.value)
    ensures WellFormedItems(more) && WellFormedPad(close) && ItemsMeaning(more, e.pal) == Some(rest)
  {
    hide At, ValueText, ItemsText, TokenText, Nodes, ItemNodes, Fits, AllFit, Meaning, ItemsMeaning, WellFormed;
    ConsFacts(r.value, rest, e.l, depth);
    AtConcat(e.src, SkipWs(e.src, q), ValueText(v), ItemsText(more) + TokenText(close, RBRACKET));
    assert acc + [r.value] + rest == acc + ([r.value] + rest);
  }

  /** A comma in front of an item and the rest of the array. */
  lemma CommaJoin(e: Env, pos: nat, depth: nat, n: nat, acc: seq<Json>, sep: Pad, r: Parsed, v: Value,
                  end: Parsed, more: Items, close: Pad, rest: seq<Json>)
    requires pos <= |e.src| && WellFormedPad(sep) && At(e.src, pos, TokenText(sep, COMMA))
    requires var q := pos + |TokenText(sep, COMMA)|;
      q <= |e.src| && SkipWs(e.src, q) == q && Derived(e, q, depth + 1, n, r, v)
    requires DerivedItems(e, r.next, depth, r.nodes, acc + [r.value], end, more, close, rest)
    ensures DerivedItems(e, pos, depth, n, acc, end, MoreItems(sep, v, more), close, [r.value] + rest)
  {
    hide At, ValueText, ItemsText, TokenText, Nodes, ItemNodes, Fits, AllFit, Meaning, WellFormed, WellFormedPad,
      Derived;
    var tok := TokenText(sep, COMMA);
    ItemJoin(e, pos + |tok|, depth, n, acc, r, v, end, more, close, rest);
    ItemsTextCons(sep, v, more, close);
    AtConcat(e.src, pos, tok, ValueText(v) + (ItemsText(more) + TokenText(close, RBRACKET)));
  }

  lemma SkipTwice(s: bytes, i: nat)
    requires i <= |s|
    ensures SkipWs(s, SkipWs(s, i)) == SkipWs(s, i)
  {}

  /** A value is derived the same way from either side of the whitespace before it. */
  lemma DerivedFrom(e: Env, i: nat, q: nat, depth: nat, n: nat, r: Parsed, v: Value)
    requires i <= |e.src| && q == SkipWs(e.src, i) && Derived(e, i, depth, n, r, v)
    ensures SkipWs(e.src, q) == q && Derived(e, q, depth, n, r, v)
  {}

  /** Soundness for the rest of an array. */
  lemma {:induction false} ItemsSound(e: Env, pos: nat, depth: nat, n: nat, acc: seq<Json>)
    returns (items: Items, close: Pad, ts: seq<Json>)
    requires pos <= |e.src| && ArrayCont(e, pos, depth, n, acc).Ok?
    requires |acc| <= e.l.arrayLen && n <= e.l.nodes
    ensures DerivedItems(e, pos, depth, n, acc, ArrayCont(e, pos, depth, n, acc).value, items, close, ts)
    decreases |e.src| - pos, 1
  {
    hide *;
    ArrayContUnfold(e, pos, depth, n, acc);
    var p := SkipWs(e.src, pos);
    if e.src[p] == RBRACKET {
      close := ItemsSoundNil(e, pos, depth, n, acc);
      items, ts := NoItems, [];
    } else {
      ItemUnfold(e, p + 1, depth, n, acc);
      var sep := WideTokenSound(e.src, pos, COMMA);
      var v := ValueSound(e, p + 1, depth + 1, n);
      var r := ParseValue(e, p + 1, depth + 1, n).value;
      DerivedNodes(e, p + 1, depth + 1, n, r, v);
      var q := pos + |TokenText(sep, COMMA)|;
      DerivedFrom(e, p + 1, q, depth + 1, n, r, v);
      var more, rest;
      more, close, rest := ItemsSound(e, r.next, depth, r.nodes, acc + [r.value]);
      items, ts := MoreItems(sep, v, more), [r.value] + rest;
      CommaJoin(e, pos, depth, n, acc, sep, r, v, ArrayCont(e, pos, depth, n, acc).value, more, close, rest);
    }
  }

  lemma DerivedNodes(e: Env, pos: nat, depth: nat, n: nat, r: Parsed, v: Value)
    requires pos <= |e.src| && Derived(e, pos, depth, n, r, v)
    ensures r.nodes <= e.l.nodes
  {}

  lemma ItemsSoundNil(e: Env, pos: nat, depth: nat, n: nat, acc: seq<Json>) returns (close: Pad)
    requires pos <= |e.src| && ArrayCont(e, pos, depth, n, acc).Ok?
    requires SkipWs(e.src, pos) < |e.src| && e.src[SkipWs(e.src, pos)] == RBRACKET
    requires |acc| <= e.l.arrayLen && n <= e.l.nodes
    ensures DerivedItems(e, pos, depth, n, acc, ArrayCont(e, pos, depth, n, acc).value, NoItems, close, [])
  {
    close := TokenSound(e.src, pos, RBRACKET);
    assert ItemsText(NoItems) + TokenText(close, RBRACKET) == TokenText(close, RBRACKET);
    assert acc + [] == acc;
  }

  // ---------- arrays ----------

  /** How a successful array starts. */
  lemma ArrayUnfold(e: Env, pos: nat, depth: nat, n: nat)
    requires pos <= |e.src| && ParseValue(e, pos, depth, n).Ok?
    requires SkipWs(e.src, pos) < |e.src| && e.src[SkipWs(e.src, pos)] == LBRACKET
    ensures depth < e.l.depth && n < e.l.nodes
    ensures var q := SkipWs(e.src, SkipWs(e.src, pos) + 1);
      && q < |e.src| && SkipWs(e.src, q) == q
      && ParseValue(e, pos, depth, n) ==
         if e.src[q] == RBRACKET then Ok(Parsed(Arr([]), q + 1, n + 1)) else ParseItem(e, q, depth, n + 1, [])
  {}

  lemma EmptyArrayJoin(e: Env, pos: nat, depth: nat, n: nat, open: Pad, close: Pad)
    requires 1 <= depth < e.l.depth && n < e.l.nodes && pos <= |e.src| && SkipWs(e.src, pos) == pos
    requires WellFormedPad(open) && WellFormedPad(close)
    requires At(e.src, pos, TokenText(open, LBRACKET))
    requires At(e.src, pos + |TokenText(open, LBRACKET)|, TokenText(close, RBRACKET))
    ensures var next := pos + |TokenText(open, LBRACKET)| + |TokenText(close, RBRACKET)|;
      Derived(e, pos, depth, n, Parsed(Arr([]), next, n + 1), EmptyArray(open, close))
  {
    hide At, TokenText;
    AtConcat(e.src, pos, TokenText(open, LBRACKET), TokenText(close, RBRACKET));
  }

  lemma ArrayJoin(e: Env, pos: nat, depth: nat, n: nat, open: Pad, r: Parsed, v: Value,
                  end: Parsed, more: Items, close: Pad, rest: seq<Json>)
    requires 1 <= depth < e.l.depth && pos <= |e.src| && SkipWs(e.src, pos) == pos
    requires WellFormedPad(open) && At(e.src, pos, TokenText(open, LBRACKET))
    requires var q := pos + |TokenText(open, LBRACKET)|;
      q <= |e.src| && SkipWs(e.src, q) == q && Derived(e, q, depth + 1, n + 1, r, v)
    requires DerivedItems(e, r.next, depth, r.nodes, [] + [r.value], end, more, close, rest)
    ensures Derived(e, pos, depth, n, end, Array(open, v, more, close))
  {
    hide At, ItemsText, TokenText, Nodes, ItemNodes, Fits, AllFit, Meaning, WellFormed, WellFormedPad, ItemsMeaning,
      WellFormedItems, DerivedItems;
    var tok := TokenText(open, LBRACKET);
    ItemJoin(e, pos + |tok|, depth, n + 1, [], r, v, end, more, close, rest);
    var whole := Array(open, v, more, close);
    ArrayWellFormed(open, v, more, close, e.pal, r.value, rest);
    assert [] + ([r.value] + rest) == [r.value] + rest;
    ArrayParts(whole, e.pal, e.l, depth - 1);
    ConsFacts(r.value, rest, e.l, depth);
    AtConcat(e.src, pos, tok, ValueText(v) + (ItemsText(more) + TokenText(close, RBRACKET)));
  }

  lemma ArrayWellFormed(open: Pad, v: Value, more: Items, close: Pad, pal: Pal, t: Json, rest: seq<Json>)
    requires WellFormedPad(open) && WellFormed(v) && WellFormedItems(more) && WellFormedPad(close)
    requires Meaning(v, pal) == Some(t) && ItemsMeaning(more, pal) == Some(rest)
    ensures WellFormed(Array(open, v, more, close))
    ensures Meaning(Array(open, v, more, close), pal) == Some(Arr([t] + rest))
  {}

  lemma {:induction false} ArraySound(e: Env, pos: nat, depth: nat, n: nat) returns (v: Value)
    requires pos <= |e.src| && SkipWs(e.src, pos) == pos && depth >= 1 && ParseValue(e, pos, depth, n).Ok?
    requires pos < |e.src| && e.src[pos] == LBRACKET
    ensures Derived(e, pos, depth, n, ParseValue(e, pos, depth, n).value, v)
    decreases |e.src| - pos, 2
  {
    hide *;
    ArrayUnfold(e, pos, depth, n);
    var open := WideTokenSound(e.src, pos, LBRACKET);
    var q := SkipWs(e.src, pos + 1);
    if e.src[q] == RBRACKET {
      var close := TokenSound(e.src, q, RBRACKET);
      EmptyArrayJoin(e, pos, depth, n, open, close);
      v := EmptyArray(open, close);
    } else {
      ItemUnfold(e, q, depth, n + 1, []);
      var first := ValueSound(e, q, depth + 1, n + 1);
      var r := ParseValue(e, q, depth + 1, n + 1).value;
      DerivedNodes(e, q, depth + 1, n + 1, r, first);
      var more, close, rest := ItemsSound(e, r.next, depth, r.nodes, [] + [r.value]);
      ArrayJoin(e, pos, depth, n, open, r, first, ParseValue(e, pos, depth, n).value, more, close, rest);
      v := Array(open, first, more, close);
    }
  }

  // ---------- objects ----------

  /** What soundness promises about the member that starts at s[pos]. */
  ghost predicate DerivedMember(e: Env, pos: nat, depth: nat, n: nat, acc: seq<Pair>, m: Member, p: Pair,
                                next: nat, n': nat)
  {
    && WellFormedMember(m) && At(e.src, pos, MemberText(m)) && next == pos + |MemberText(m)|
    && MemberMeaning(m, e.pal) == Some(p) && PairFits(p, e.l, depth)
    && |acc| < e.l.arrayLen && n' == n + Nodes(p.val) <= e.l.nodes
  }

  /** How a successful member starts: key, colon, value. */
  lemma KeyUnfold(e: Env, pos: nat, depth: nat, n: nat, acc: seq<Pair>)
    requires pos <= |e.src| && ParseKey(e, pos, depth, n, acc).Ok?
    ensures SkipWs(e.src, pos) < |e.src| && e.src[SkipWs(e.src, pos)] == QUOTE
    ensures StringAt(e.src, SkipWs(e.src, pos) + 1, e.l.stringLen).Ok?
    ensures var lit := StringAt(e.src, SkipWs(e.src, pos) + 1, e.l.stringLen).value;
      && pos < lit.next <= |e.src|
      && ParseKey(e, pos, depth, n, acc) == ParseColon(e, lit.next, depth, n, acc, lit.value)
  {
    hide ParseColon, StringAt;
  }

  lemma ColonUnfold(e: Env, pos: nat, depth: nat, n: nat, acc: seq<Pair>, key: bytes)
    requires pos <= |e.src| && ParseColon(e, pos, depth, n, acc, key).Ok?
    ensures SkipWs(e.src, pos) < |e.src| && e.src[SkipWs(e.src, pos)] == COLON && depth < e.l.depth
    ensures ParseColon(e, pos, depth, n, acc, key) == ParseMember(e, SkipWs(e.src, pos) + 1, depth, n, acc, key)
  {
    hide ParseMember;
  }

  lemma MemberUnfold(e: Env, pos: nat, depth: nat, n: nat, acc: seq<Pair>, key: bytes)
    requires pos <= |e.src| && ParseMember(e, pos, depth, n, acc, key).Ok?
    ensures ParseValue(e, pos, depth + 1, n).Ok?
    ensures var r := ParseValue(e, pos, depth + 1, n).value;
      && pos < r.next <= |e.src| && |acc| < e.l.arrayLen && SkipWs(e.src, pos) < |e.src|
      && ParseMember(e, pos, depth, n, acc, key) == ObjectCont(e, r.next, depth, r.nodes, acc + [Pair(key, r.value)])
  {
    ParsedNonEmpty(e, pos, depth + 1, n);
    hide ParseValue, ObjectCont;
  }

  lemma MemberJoin(e: Env, pos: nat, depth: nat, n: nat, acc: seq<Pair>, chars: seq<StrChar>, colon: Pad, v: Value,
                   r: Parsed)
    requires WellFormedChars(chars) && At(e.src, pos, QuotedText(chars)) && |CharsMeaning(chars)| <= e.l.stringLen
    requires WellFormedPad(colon) && At(e.src, pos + |QuotedText(chars)|, TokenText(colon, COLON))
    requires var q := pos + |QuotedText(chars)| + |TokenText(colon, COLON)|;
      q <= |e.src| && SkipWs(e.src, q) == q && Derived(e, q, depth + 1, n, r, v)
    requires |acc| < e.l.arrayLen
    ensures DerivedMember(e, pos, depth, n, acc, Member(chars, colon, v), Pair(CharsMeaning(chars), r.value),
                          r.next, r.nodes)
  {
    hide At, QuotedText, TokenText, ValueText, WellFormed, WellFormedChars, WellFormedPad, Meaning, CharsMeaning,
      Nodes, Fits;
    var q := pos + |QuotedText(chars)|;
    AtConcat(e.src, q, TokenText(colon, COLON), ValueText(v));
    AtConcat(e.src, pos, QuotedText(chars), TokenText(colon, COLON) + ValueText(v));
  }

  lemma {:induction false} MemberSound(e: Env, pos: nat, depth: nat, n: nat, acc: seq<Pair>)
    returns (m: Member, p: Pair, next: nat, n': nat)
    requires pos <= |e.src| && SkipWs(e.src, pos) == pos && ParseKey(e, pos, depth, n, acc).Ok?
    ensures DerivedMember(e, pos, depth, n, acc, m, p, next, n')
    ensures pos < next <= |e.src|
    ensures ParseKey(e, pos, depth, n, acc) == ObjectCont(e, next, depth, n', acc + [p])
    decreases |e.src| - pos, 1
  {
    hide *;
    KeyUnfold(e, pos, depth, n, acc);
    var lit := StringAt(e.src, pos + 1, e.l.stringLen).value;
    var chars := QuotedSound(e.src, pos, e.l.stringLen);
    ColonUnfold(e, lit.next, depth, n, acc, lit.value);
    var colon := WideTokenSound(e.src, lit.next, COLON);
    var c := SkipWs(e.src, lit.next) + 1;
    MemberUnfold(e, c, depth, n, acc, lit.value);
    var v := ValueSound(e, c, depth + 1, n);
    var r := ParseValue(e, c, depth + 1, n).value;
    DerivedFrom(e, c, lit.next + |TokenText(colon, COLON)|, depth + 1, n, r, v);
    MemberJoin(e, pos, depth, n, acc, chars, colon, v, r);
    m, p, next, n' := Member(chars, colon, v), Pair(lit.value, r.value), r.next, r.nodes;
  }

  lemma ObjectContUnfold(e: Env, pos: nat, depth: nat, n: nat, acc: seq<Pair>)
    requires pos <= |e.src| && ObjectCont(e, pos, depth, n, acc).Ok?
    ensures SkipWs(e.src, pos) < |e.src|
    ensures e.src[SkipWs(e.src, pos)] != RBRACE ==>
      && e.src[SkipWs(e.src, pos)] == COMMA
      && ObjectCont(e, pos, depth, n, acc) == ParseKey(e, SkipWs(e.src, pos) + 1, depth, n, acc)
  {}

  lemma KeySkip(e: Env, i: nat, depth: nat, n: nat, acc: seq<Pair>)
    requires i <= |e.src|
    ensures ParseKey(e, i, depth, n, acc) == ParseKey(e, SkipWs(e.src, i), depth, n, acc)
  {
    hide StringAt, ParseColon;
    SkipTwice(e.src, i);
  }

  /** A member and the rest of the object, put together. */
  lemma MembersJoin(e: Env, q: nat, depth: nat, n: nat, acc: seq<Pair>, m: Member, p: Pair, next: nat, n': nat,
                    end: Parsed, more: Members, close: Pad, rest: seq<Pair>)
    requires DerivedMember(e, q, depth, n, acc, m, p, next, n')
    requires DerivedMembers(e, next, depth, n', acc + [p], end, more, close, rest)
    ensures PairNodes([p] + rest) == Nodes(p.val) + PairNodes(rest)
    ensures AllPairsFit([p] + rest, e.l, depth)
    ensures var w := MemberText(m) + (MembersText(more) + TokenText(close, RBRACE));
      At(e.src, q, w) && end.next == q + |w|
    ensures end.value == Obj(acc + ([p] + rest)) && |acc| + 1 + |rest| <= e.l.arrayLen
    ensures end.nodes == n + Nodes(p.val) + PairNodes(rest) <= e.l.nodes
    ensures WellFormedMember(m) && MemberMeaning(m, e.pal) == Some(p)
    ensures WellFormedMembers(more) && WellFormedPad(close) && MembersMeaning(more, e.pal) == Some(rest)
  {
    hide At, MemberText, MembersText, TokenText, Nodes, PairNodes, PairFits, AllPairsFit, MemberMeaning,
      MembersMeaning, WellFormedMember, WellFormedMembers;
    ConsPairFacts(p, rest, e.l, depth);
    AtConcat(e.src, q, MemberText(m), MembersText(more) + TokenText(close, RBRACE));
    assert acc + [p] + rest == acc + ([p] + rest);
  }

  lemma CommaMemberJoin(e: Env, pos: nat, depth: nat, n: nat, acc: seq<Pair>, sep: Pad, m: Member, p: Pair, next: nat,
                        n': nat, end: Parsed, more: Members, close: Pad, rest: seq<Pair>)
    requires WellFormedPad(sep) && At(e.src, pos, TokenText(sep, COMMA))
    requires DerivedMember(e, pos + |TokenText(sep, COMMA)|, depth, n, acc, m, p, next, n')
    requires DerivedMembers(e, next, depth, n', acc + [p], end, more, close, rest)
    ensures DerivedMembers(e, pos, depth, n, acc, end, MoreMembers(sep, m, more), close, [p] + rest)
  {
    hide At, MemberText, MembersText, TokenText, Nodes, PairNodes, PairFits, AllPairsFit, MemberMeaning,
      WellFormedMember, WellFormedPad, DerivedMember;
    var tok := TokenText(sep, COMMA);
    MembersJoin(e, pos + |tok|, depth, n, acc, m, p, next, n', end, more, close, rest);
    MembersTextCons(sep, m, more, close);
    AtConcat(e.src, pos, tok, MemberText(m) + (MembersText(more) + TokenText(close, RBRACE)));
  }

  lemma MembersSoundNil(e: Env, pos: nat, depth: nat, n: nat, acc: seq<Pair>) returns (close: Pad)
    requires pos <= |e.src| && ObjectCont(e, pos, depth, n, acc).Ok?
    requires SkipWs(e.src, pos) < |e.src| && e.src[SkipWs(e.src, pos)] == RBRACE
    requires |acc| <= e.l.arrayLen && n <= e.l.nodes
    ensures DerivedMembers(e, pos, depth, n, acc, ObjectCont(e, pos, depth, n, acc).value, NoMembers, close, [])
  {
    close := TokenSound(e.src, pos, RBRACE);
    assert MembersText(NoMembers) + TokenText(close, RBRACE) == TokenText(close, RBRACE);
    assert acc + [] == acc;
  }

  lemma MemberFacts(e: Env, pos: nat, depth: nat, n: nat, acc: seq<Pair>, m: Member, p: Pair, next: nat, n': nat)
    requires DerivedMember(e, pos, depth, n, acc, m, p, next, n')
    ensures n' <= e.l.nodes && |acc| < e.l.arrayLen
  {}

  /** Soundness for the rest of an object. */
  lemma {:induction false} MembersSound(e: Env, pos: nat, depth: nat, n: nat, acc: seq<Pair>)
    returns (ms: Members, close: Pad, ps: seq<Pair>)
    requires pos <= |e.src| && ObjectCont(e, pos, depth, n, acc).Ok?
    requires |acc| <= e.l.arrayLen && n <= e.l.nodes
    ensures DerivedMembers(e, pos, depth, n, acc, ObjectCont(e, pos, depth, n, acc).value, ms, close, ps)
    decreases |e.src| - pos, 1
  {
    hide *;
    ObjectContUnfold(e, pos, depth, n, acc);
    var c := SkipWs(e.src, pos);
    if e.src[c] == RBRACE {
      close := MembersSoundNil(e, pos, depth, n, acc);
      ms, ps := NoMembers, [];
    } else {
      var sep := WideTokenSound(e.src, pos, COMMA);
      var q := SkipWs(e.src, c + 1);
      KeySkip(e, c + 1, depth, n, acc);
      SkipTwice(e.src, c + 1);
      var m, p, next, n' := MemberSound(e, q, depth, n, acc);
      MemberFacts(e, q, depth, n, acc, m, p, next, n');
      var more, rest;
      more, close, rest := MembersSound(e, next, depth, n', acc + [p]);
      CommaMemberJoin(e, pos, depth, n, acc, sep, m, p, next, n', ObjectCont(e, pos, depth, n, acc).value,
                      more, close, rest);
      ms, ps := MoreMembers(sep, m, more), [p] + rest;
    }
  }

  lemma ObjectUnfold(e: Env, pos: nat, depth: nat, n: nat)
    requires pos <= |e.src| && ParseValue(e, pos, depth, n).Ok?
    requires SkipWs(e.src, pos) < |e.src| && e.src[SkipWs(e.src, pos)] == LBRACE
    ensures depth < e.l.depth && n < e.l.nodes
    ensures var q := SkipWs(e.src, SkipWs(e.src, pos) + 1);
      && q < |e.src| && SkipWs(e.src, q) == q
      && ParseValue(e, pos, depth, n) ==
         if e.src[q] == RBRACE then Ok(Parsed(Obj([]), q + 1, n + 1)) else ParseKey(e, q, depth, n + 1, [])
  {}

  lemma EmptyObjectJoin(e: Env, pos: nat, depth: nat, n: nat, open: Pad, close: Pad)
    requires 1 <= depth < e.l.depth && n < e.l.nodes && pos <= |e.src| && SkipWs(e.src, pos) == pos
    requires WellFormedPad(open) && WellFormedPad(close)
    requires At(e.src, pos, TokenText(open, LBRACE))
    requires At(e.src, pos + |TokenText(open, LBRACE)|, TokenText(close, RBRACE))
    ensures var next := pos + |TokenText(open, LBRACE)| + |TokenText(close, RBRACE)|;
      Derived(e, pos, depth, n, Parsed(Obj([]), next, n + 1), EmptyObject(open, close))
  {
    hide At, TokenText;
    AtConcat(e.src, pos, TokenText(open, LBRACE), TokenText(close, RBRACE));
  }

  lemma ObjectJoin(e: Env, pos: nat, depth: nat, n: nat, open: Pad, m: Member, p: Pair, next: nat, n': nat,
                   end: Parsed, more: Members, close: Pad, rest: seq<Pair>)
    requires 1 <= depth < e.l.depth && pos <= |e.src| && SkipWs(e.src, pos) == pos
    requires WellFormedPad(open) && At(e.src, pos, TokenText(open, LBRACE))
    requires DerivedMember(e, pos + |TokenText(open, LBRACE)|, depth, n + 1, [], m, p, next, n')
    requires DerivedMembers(e, next, depth, n', [] + [p], end, more, close, rest)
    ensures Derived(e, pos, depth, n, end, Object(open, m, more, close))
  {
    hide At, MembersText, TokenText, Nodes, PairNodes, PairFits, AllPairsFit, Meaning, WellFormed, WellFormedPad, Fits,
      MembersMeaning, WellFormedMembers, DerivedMembers, DerivedMember, MemberText, WellFormedMember, MemberMeaning;
    var tok := TokenText(open, LBRACE);
    MembersJoin(e, pos + |tok|, depth, n + 1, [], m, p, next, n', end, more, close, rest);
    var whole := Object(open, m, more, close);
    ObjectWellFormed(open, m, more, close, e.pal, p, rest);
    assert [] + ([p] + rest) == [p] + rest;
    ObjectParts(whole, e.pal, e.l, depth - 1);
    ConsPairFacts(p, rest, e.l, depth);
    AtConcat(e.src, pos, tok, MemberText(m) + (MembersText(more) + TokenText(close, RBRACE)));
  }

  lemma ObjectWellFormed(open: Pad, m: Member, more: Members, close: Pad, pal: Pal, p: Pair, rest: seq<Pair>)
    requires WellFormedPad(open) && WellFormedMember(m) && WellFormedMembers(more) && WellFormedPad(close)
    requires MemberMeaning(m, pal) == Some(p) && MembersMeaning(more, pal) == Some(rest)
    ensures WellFormed(Object(open, m, more, close))
    ensures Meaning(Object(open, m, more, close), pal) == Some(Obj([p] + rest))
  {}

  lemma {:induction false} ObjectSound(e: Env, pos: nat, depth: nat, n: nat) returns (v: Value)
    requires pos <= |e.src| && SkipWs(e.src, pos) == pos && depth >= 1 && ParseValue(e, pos, depth, n).Ok?
    requires pos < |e.src| && e.src[pos] == LBRACE
    ensures Derived(e, pos, depth, n, ParseValue(e, pos, depth, n).value, v)
    decreases |e.src| - pos, 2
  {
    hide *;
    ObjectUnfold(e, pos, depth, n);
    var open := WideTokenSound(e.src, pos, LBRACE);
    var q := SkipWs(e.src, pos + 1);
    if e.src[q] == RBRACE {
      var close := TokenSound(e.src, q, RBRACE);
      EmptyObjectJoin(e, pos, depth, n, open, close);
      v := EmptyObject(open, close);
    } else {
      var m, p, next, n' := MemberSound(e, q, depth, n + 1, []);
      MemberFacts(e, q, depth, n + 1, [], m, p, next, n');
      var more, close, rest := MembersSound(e, next, depth, n', [] + [p]);
      ObjectJoin(e, pos, depth, n, open, m, p, next, n', ParseValue(e, pos, depth, n).value, more, close, rest);
      v := Object(open, m, more, close);
    }
  }
}
