/** Completeness: every text of the grammar within the limits is parsed to the tree it denotes. */
module ParserComplete {
  import opened Base
  import opened Tree
  import opened StringLex
  import opened StringGrammar
  import opened Numbers
  import opened NumberGrammar
  import opened ParserSpec
  import opened Lexical
  import opened Grammar

  // ---------- whitespace ----------

  /** s[i..e] is whitespace. */
  predicate Blank(s: bytes, i: nat, e: nat) {
    i <= e <= |s| && forall k :: i <= k < e ==> IsWs(s[k])
  }

  /** Skipping from either end of a stretch of whitespace leads to the same place. */
  lemma {:induction false} SkipBlank(s: bytes, i: nat, e: nat)
    requires Blank(s, i, e)
    ensures SkipWs(s, i) == SkipWs(s, e)
    decreases e - i
  {
    if i < e { SkipBlank(s, i + 1, e); }
  }

  /** A structural character is found behind the whitespace in front of it. */
  lemma TokenComplete(s: bytes, i: nat, pos: nat, p: Pad, c: byte)
    requires WellFormedPad(p) && At(s, pos, TokenText(p, c)) && Blank(s, i, pos) && c > 0x20
    ensures SkipWs(s, i) == pos + |p.before| < |s| && s[pos + |p.before|] == c
    ensures Blank(s, pos + |p.before| + 1, pos + |TokenText(p, c)|)
    ensures |TokenText(p, c)| == |p.before| + 1 + |p.after|
  {
    AtConcat(s, pos, p.before, [c] + p.after);
    AtConcat(s, pos + |p.before|, [c], p.after);
    AtByte(s, pos + |p.before|, c);
    BlankAt(s, pos, p.before);
    BlankAt(s, pos + |p.before| + 1, p.after);
    SkipBlank(s, i, pos + |p.before|);
  }

  /** No structural character is whitespace. */
  lemma StructuralBytes()
    ensures COMMA > 0x20 && COLON > 0x20 && QUOTE > 0x20
    ensures LBRACKET > 0x20 && RBRACKET > 0x20 && LBRACE > 0x20 && RBRACE > 0x20
  {}

  lemma BlankAt(s: bytes, i: nat, ws: bytes)
    requires AllWs(ws) && At(s, i, ws)
    ensures Blank(s, i, i + |ws|)
  {
    forall k | i <= k < i + |ws| ensures IsWs(s[k]) { assert ws[k - i] == s[k]; }
  }

  // ---------- scalars ----------

  /** What a successful parse of a value that ends at `end` looks like. */
  ghost predicate Good(e: Env, r: Result<Parsed>, t: Json, n: nat, end: nat) {
    r.Ok? && r.value.value == t && r.value.nodes == n && Blank(e.src, r.value.next, end)
  }

  lemma QuotedComplete(s: bytes, pos: nat, chars: seq<StrChar>, maxLen: nat)
    requires WellFormedChars(chars) && At(s, pos, QuotedText(chars)) && |CharsMeaning(chars)| <= maxLen
    ensures pos < |s| && s[pos] == QUOTE
    ensures StringAt(s, pos + 1, maxLen) == Ok(Literal(CharsMeaning(chars), pos + |QuotedText(chars)|))
  {
    hide At, ContentAt, CharsText, CharsMeaning;
    AtConcat(s, pos, [QUOTE], CharsText(chars) + [QUOTE]);
    AtByte(s, pos, QUOTE);
    AtConcat(s, pos + 1, CharsText(chars), [QUOTE]);
    AtByte(s, pos + 1 + |CharsText(chars)|, QUOTE);
    ContentComplete(s, pos + 1, chars);
  }

  lemma NumberAtComplete(s: bytes, pos: nat, num: NumberText, pal: Pal, t: Json)
    requires WellFormedNumber(num) && At(s, pos, NumText(num)) && Ends(s, pos + |NumText(num)|)
    requires Meaning(LitNumber(num), pal) == Some(t)
    ensures pos < |s| && (s[pos] == MINUS || IsDigit(s[pos]))
    ensures NumberAt(s, pos, pal) == Ok(Number(t, pos + |NumText(num)|))
  {
    hide At, NumText, LexNumber;
    NumberComplete(s, pos, num);
    AtSlice(s, pos, NumText(num));
    NumberHead(num);
    AtHead(s, pos, NumText(num));
    NextIgnored(num, pos + |NumText(num)|, NumText(num), pal);
  }

  lemma NumberHead(num: NumberText)
    requires WellFormedNumber(num)
    ensures NumText(num) != [] && (NumText(num)[0] == MINUS || IsDigit(NumText(num)[0]))
  {}

  /** A parse depends on where the whitespace before it ends, not on where it starts. */
  lemma SameStart(e: Env, i: nat, j: nat, depth: nat, n: nat)
    requires i <= |e.src| && j <= |e.src| && SkipWs(e.src, i) == SkipWs(e.src, j)
    ensures ParseValue(e, i, depth, n) == ParseValue(e, j, depth, n)
  {}

  // ---------- what stands where a value or a continuation starts ----------

  /** Bytes that begin a value, a comma or a closing bracket, once whitespace is skipped. */
  ghost predicate StartsValue(s: bytes, i: nat) {
    i <= |s| && SkipWs(s, i) < |s| && s[SkipWs(s, i)] != RBRACKET && s[SkipWs(s, i)] != RBRACE
  }

  lemma ValueStarts(s: bytes, pos: nat, v: Value)
    requires WellFormed(v) && At(s, pos, ValueText(v))
    ensures StartsValue(s, pos)
  {
    hide At, NumText, CharsText, TokenText, ItemsText, MembersText, MemberText;
    AtBounds(s, pos, ValueText(v));
    match v
    case LitNull => AtConcat(s, pos, [0x6E], ULL); AtByte(s, pos, 0x6E);
    case LitTrue => AtConcat(s, pos, [0x74], RUE); AtByte(s, pos, 0x74);
    case LitFalse => AtConcat(s, pos, [0x66], ALSE); AtByte(s, pos, 0x66);
    case LitNumber(num) => NumberHead(num); AtHead(s, pos, NumText(num));
    case LitString(chars) => AtConcat(s, pos, [QUOTE], CharsText(chars) + [QUOTE]); AtByte(s, pos, QUOTE);
    case EmptyArray(open, close) =>
      AtConcat(s, pos, TokenText(open, LBRACKET), TokenText(close, RBRACKET));
      TokenComplete(s, pos, pos, open, LBRACKET);
    case Array(open, first, rest, close) =>
      AtConcat(s, pos, TokenText(open, LBRACKET), ValueText(first) + (ItemsText(rest) + TokenText(close, RBRACKET)));
      TokenComplete(s, pos, pos, open, LBRACKET);
    case EmptyObject(open, close) =>
      AtConcat(s, pos, TokenText(open, LBRACE), TokenText(close, RBRACE));
      TokenComplete(s, pos, pos, open, LBRACE);
    case Object(open, head, tail, close) =>
      AtConcat(s, pos, TokenText(open, LBRACE), MemberText(head) + (MembersText(tail) + TokenText(close, RBRACE)));
      TokenComplete(s, pos, pos, open, LBRACE);
  }

  /** A structural character ends any number before it. */
  lemma TokenEnds(s: bytes, pos: nat, p: Pad, c: byte)
    requires WellFormedPad(p) && At(s, pos, TokenText(p, c))
    requires c == COMMA || c == RBRACKET || c == RBRACE
    ensures Ends(s, pos)
  {
    hide At;
    AtConcat(s, pos, p.before, [c] + p.after);
    if p.before == [] {
      AtConcat(s, pos, [c], p.after);
      AtByte(s, pos, c);
    } else {
      AtHead(s, pos, p.before);
      assert IsWs(p.before[0]);
    }
  }

  // ---------- containers ----------

  /** One parsed item moves an array on to its continuation. */
  lemma ItemStep(e: Env, i: nat, pos: nat, depth: nat, n: nat, acc: seq<Json>, t: Json, n': nat, end: nat)
    requires i <= |e.src| && pos <= |e.src| && SkipWs(e.src, i) == SkipWs(e.src, pos)
    requires Good(e, ParseValue(e, pos, depth + 1, n), t, n', end)
    requires |acc| < e.l.arrayLen
    ensures ParseValue(e, pos, depth + 1, n).Ok?
    ensures var v := ParseValue(e, pos, depth + 1, n).value;
      v.next <= |e.src| && Blank(e.src, v.next, end) &&
      ParseItem(e, i, depth, n, acc) == ArrayCont(e, v.next, depth, n', acc + [t])
  {
    SameStart(e, i, pos, depth + 1, n);
  }

  lemma MemberStep(e: Env, i: nat, pos: nat, depth: nat, n: nat, acc: seq<Pair>, key: bytes, t: Json, n': nat, end: nat)
    requires i <= |e.src| && pos <= |e.src| && SkipWs(e.src, i) == SkipWs(e.src, pos)
    requires Good(e, ParseValue(e, pos, depth + 1, n), t, n', end)
    requires |acc| < e.l.arrayLen
    ensures ParseValue(e, pos, depth + 1, n).Ok?
    ensures var v := ParseValue(e, pos, depth + 1, n).value;
      v.next <= |e.src| && Blank(e.src, v.next, end) &&
      ParseMember(e, i, depth, n, acc, key) == ObjectCont(e, v.next, depth, n', acc + [Pair(key, t)])
  {
    SameStart(e, i, pos, depth + 1, n);
  }

  ghost predicate AllFit(ts: seq<Json>, l: Limits, level: nat) {
    forall k :: 0 <= k < |ts| ==> Fits(ts[k], l, level)
  }

  ghost predicate AllPairsFit(ps: seq<Pair>, l: Limits, level: nat) {
    forall k :: 0 <= k < |ps| ==> PairFits(ps[k], l, level)
  }

  lemma ConsFacts(t: Json, ts: seq<Json>, l: Limits, level: nat)
    ensures ItemNodes([t] + ts) == Nodes(t) + ItemNodes(ts)
    ensures AllFit([t] + ts, l, level) <==> Fits(t, l, level) && AllFit(ts, l, level)
  {
    var all := [t] + ts;
    assert all[0] == t && all[1..] == ts;
    if AllFit(all, l, level) {
      forall k | 0 <= k < |ts| ensures Fits(ts[k], l, level) { assert ts[k] == all[k + 1]; }
    }
  }

  lemma ConsPairFacts(p: Pair, ps: seq<Pair>, l: Limits, level: nat)
    ensures PairNodes([p] + ps) == Nodes(p.val) + PairNodes(ps)
    ensures AllPairsFit([p] + ps, l, level) <==> PairFits(p, l, level) && AllPairsFit(ps, l, level)
  {
    var all := [p] + ps;
    assert all[0] == p && all[1..] == ps;
    if AllPairsFit(all, l, level) {
      forall k | 0 <= k < |ps| ensures PairFits(ps[k], l, level) { assert ps[k] == all[k + 1]; }
    }
  }

  /** The tail of an array, from just after an item to its closing bracket. */
  lemma {:induction false} ItemsComplete(
    e: Env, i: nat, pos: nat, depth: nat, n: nat, acc: seq<Json>, items: Items, close: Pad, ts: seq<Json>)
    requires WellFormedItems(items) && WellFormedPad(close) && Blank(e.src, i, pos)
    requires At(e.src, pos, ItemsText(items) + TokenText(close, RBRACKET))
    requires ItemsMeaning(items, e.pal) == Some(ts)
    requires AllFit(ts, e.l, depth) && |acc| + |ts| <= e.l.arrayLen && depth < e.l.depth
    requires n + ItemNodes(ts) <= e.l.nodes
    ensures Good(e, ArrayCont(e, i, depth, n, acc), Arr(acc + ts), n + ItemNodes(ts),
                 pos + |ItemsText(items) + TokenText(close, RBRACKET)|)
    decreases items, 1
  {
    hide *;
    StructuralBytes();
    if items.NoItems? {
      ItemsCompleteNil(e, i, pos, depth, n, acc, close, ts);
    } else {
      var sep, item, more := items.sep, items.item, items.items;
      ItemsParts(items, e.pal);
      var t, rest := Meaning(item, e.pal).value, ItemsMeaning(more, e.pal).value;
      ConsFacts(t, rest, e.l, depth);
      var tok, u, w := TokenText(sep, COMMA), ValueText(item), ItemsText(more) + TokenText(close, RBRACKET);
      ItemsTextCons(sep, item, more, close);
      AtConcat(e.src, pos, tok, u + w);
      TokenComplete(e.src, i, pos, sep, COMMA);
      var p, q := pos + |sep.before| + 1, pos + |tok|;
      ArrayComma(e, i, depth, n, acc);
      SkipBlank(e.src, p, q);
      AtConcat(e.src, q, u, w);
      AtBounds(e.src, q, u);
      ItemsEnd(e.src, q + |u|, more, close);
      ValueComplete(e, q, depth + 1, n, item, t);
      ItemStep(e, p, q, depth, n, acc, t, n + Nodes(t), q + |u|);
      var next := ParseValue(e, q, depth + 1, n).value.next;
      ItemsComplete(e, next, q + |u|, depth, n + Nodes(t), acc + [t], more, close, rest);
      assert acc + [t] + rest == acc + ([t] + rest);
    }
  }

  lemma ItemsParts(items: Items, pal: Pal)
    requires items.MoreItems? && WellFormedItems(items) && ItemsMeaning(items, pal).Some?
    ensures WellFormedPad(items.sep) && WellFormed(items.item) && WellFormedItems(items.items)
    ensures Meaning(items.item, pal).Some? && ItemsMeaning(items.items, pal).Some?
    ensures ItemsMeaning(items, pal).value == [Meaning(items.item, pal).value] + ItemsMeaning(items.items, pal).value
  {}

  lemma ArrayComma(e: Env, i: nat, depth: nat, n: nat, acc: seq<Json>)
    requires i <= |e.src| && SkipWs(e.src, i) < |e.src| && e.src[SkipWs(e.src, i)] == COMMA && depth < e.l.depth
    ensures ArrayCont(e, i, depth, n, acc) == ParseItem(e, SkipWs(e.src, i) + 1, depth, n, acc)
  {
    hide ParseItem;
  }

  lemma ItemsTextCons(sep: Pad, item: Value, more: Items, close: Pad)
    ensures ItemsText(MoreItems(sep, item, more)) + TokenText(close, RBRACKET)
         == TokenText(sep, COMMA) + (ValueText(item) + (ItemsText(more) + TokenText(close, RBRACKET)))
  {}

  lemma ItemsCompleteNil(e: Env, i: nat, pos: nat, depth: nat, n: nat, acc: seq<Json>, close: Pad, ts: seq<Json>)
    requires WellFormedPad(close) && Blank(e.src, i, pos)
    requires At(e.src, pos, ItemsText(NoItems) + TokenText(close, RBRACKET))
    requires ItemsMeaning(NoItems, e.pal) == Some(ts)
    ensures Good(e, ArrayCont(e, i, depth, n, acc), Arr(acc + ts), n + ItemNodes(ts),
                 pos + |ItemsText(NoItems) + TokenText(close, RBRACKET)|)
  {
    assert ItemsText(NoItems) + TokenText(close, RBRACKET) == TokenText(close, RBRACKET);
    TokenComplete(e.src, i, pos, close, RBRACKET);
    assert acc + ts == acc;
  }

  lemma ItemsEnd(s: bytes, pos: nat, items: Items, close: Pad)
    requires WellFormedItems(items) && WellFormedPad(close)
    requires At(s, pos, ItemsText(items) + TokenText(close, RBRACKET))
    ensures Ends(s, pos)
  {
    match items
    case NoItems =>
      assert ItemsText(items) + TokenText(close, RBRACKET) == TokenText(close, RBRACKET);
      TokenEnds(s, pos, close, RBRACKET);
    case MoreItems(sep, item, more) =>
      hide At, TokenText, ValueText;
      ItemsTextCons(sep, item, more, close);
      AtConcat(s, pos, TokenText(sep, COMMA), ValueText(item) + (ItemsText(more) + TokenText(close, RBRACKET)));
      TokenEnds(s, pos, sep, COMMA);
  }

  // ---------- objects ----------

  lemma MembersParts(ms: Members, pal: Pal)
    requires ms.MoreMembers? && WellFormedMembers(ms) && MembersMeaning(ms, pal).Some?
    ensures WellFormedPad(ms.sep) && WellFormedMember(ms.member) && WellFormedMembers(ms.members)
    ensures MemberMeaning(ms.member, pal).Some? && MembersMeaning(ms.members, pal).Some?
    ensures MembersMeaning(ms, pal).value
         == [MemberMeaning(ms.member, pal).value] + MembersMeaning(ms.members, pal).value
  {}

  lemma MembersTextCons(sep: Pad, m: Member, more: Members, close: Pad)
    ensures MembersText(MoreMembers(sep, m, more)) + TokenText(close, RBRACE)
         == TokenText(sep, COMMA) + (MemberText(m) + (MembersText(more) + TokenText(close, RBRACE)))
  {}

  lemma ObjectComma(e: Env, i: nat, depth: nat, n: nat, acc: seq<Pair>)
    requires i <= |e.src| && SkipWs(e.src, i) < |e.src| && e.src[SkipWs(e.src, i)] == COMMA
    ensures ObjectCont(e, i, depth, n, acc) == ParseKey(e, SkipWs(e.src, i) + 1, depth, n, acc)
  {}

  lemma MembersCompleteNil(e: Env, i: nat, pos: nat, depth: nat, n: nat, acc: seq<Pair>, close: Pad, ps: seq<Pair>)
    requires WellFormedPad(close) && Blank(e.src, i, pos)
    requires At(e.src, pos, MembersText(NoMembers) + TokenText(close, RBRACE))
    requires MembersMeaning(NoMembers, e.pal) == Some(ps)
    ensures Good(e, ObjectCont(e, i, depth, n, acc), Obj(acc + ps), n + PairNodes(ps),
                 pos + |MembersText(NoMembers) + TokenText(close, RBRACE)|)
  {
    assert MembersText(NoMembers) + TokenText(close, RBRACE) == TokenText(close, RBRACE);
    TokenComplete(e.src, i, pos, close, RBRACE);
    assert acc + ps == acc;
  }

  lemma MembersEnd(s: bytes, pos: nat, ms: Members, close: Pad)
    requires WellFormedMembers(ms) && WellFormedPad(close)
    requires At(s, pos, MembersText(ms) + TokenText(close, RBRACE))
    ensures Ends(s, pos)
  {
    match ms
    case NoMembers =>
      assert MembersText(ms) + TokenText(close, RBRACE) == TokenText(close, RBRACE);
      TokenEnds(s, pos, close, RBRACE);
    case MoreMembers(sep, m, more) =>
      hide At, TokenText, MemberText;
      MembersTextCons(sep, m, more, close);
      AtConcat(s, pos, TokenText(sep, COMMA), MemberText(m) + (MembersText(more) + TokenText(close, RBRACE)));
      TokenEnds(s, pos, sep, COMMA);
  }

  lemma MemberParts(m: Member, pal: Pal)
    requires WellFormedMember(m) && MemberMeaning(m, pal).Some?
    ensures WellFormedChars(m.key) && WellFormedPad(m.colon) && WellFormed(m.val)
    ensures Meaning(m.val, pal).Some?
    ensures MemberMeaning(m, pal).value == Pair(CharsMeaning(m.key), Meaning(m.val, pal).value)
    ensures MemberText(m) == QuotedText(m.key) + (TokenText(m.colon, COLON) + ValueText(m.val))
  {}

  /** A key and its colon lead to the member's value. */
  lemma KeyColonStep(e: Env, i: nat, depth: nat, n: nat, acc: seq<Pair>, key: bytes, next: nat)
    requires i <= |e.src| && SkipWs(e.src, i) < |e.src| && e.src[SkipWs(e.src, i)] == QUOTE
    requires StringAt(e.src, SkipWs(e.src, i) + 1, e.l.stringLen) == Ok(Literal(key, next))
    requires next <= |e.src| && SkipWs(e.src, next) < |e.src| && e.src[SkipWs(e.src, next)] == COLON
    requires depth < e.l.depth
    ensures ParseKey(e, i, depth, n, acc) == ParseMember(e, SkipWs(e.src, next) + 1, depth, n, acc, key)
  {
    hide StringAt, ParseMember, ParseValue, SkipWs;
  }

  lemma PairFitsFacts(key: bytes, t: Json, l: Limits, level: nat)
    ensures PairFits(Pair(key, t), l, level) <==> |key| <= l.stringLen && Fits(t, l, level)
  {}

  lemma SkipAtNonWs(s: bytes, i: nat)
    requires i < |s| && s[i] > 0x20
    ensures SkipWs(s, i) == i
  {}

  lemma BlankEmpty(s: bytes, i: nat)
    ensures i <= |s| ==> Blank(s, i, i)
  {}

  /** One member of an object, up to its continuation. `i` is any position whose whitespace ends at the key. */
  lemma {:induction false} MemberComplete(
    e: Env, i: nat, pos: nat, depth: nat, n: nat, acc: seq<Pair>, m: Member, p: Pair)
    returns (next: nat)
    requires WellFormedMember(m) && MemberMeaning(m, e.pal) == Some(p)
    requires i <= |e.src| && pos <= |e.src| && SkipWs(e.src, i) == SkipWs(e.src, pos)
    requires At(e.src, pos, MemberText(m)) && Ends(e.src, pos + |MemberText(m)|)
    requires PairFits(p, e.l, depth) && |acc| < e.l.arrayLen && depth < e.l.depth
    requires n + Nodes(p.val) <= e.l.nodes
    ensures next <= |e.src| && Blank(e.src, next, pos + |MemberText(m)|)
    ensures ParseKey(e, i, depth, n, acc) == ObjectCont(e, next, depth, n + Nodes(p.val), acc + [p])
    decreases m, 1
  {
    hide *;
    StructuralBytes();
    MemberParts(m, e.pal);
    var key, t := p.key, p.val;
    PairFitsFacts(key, t, e.l, depth);
    var k, tok, u := QuotedText(m.key), TokenText(m.colon, COLON), ValueText(m.val);
    AtConcat(e.src, pos, k, tok + u);
    QuotedComplete(e.src, pos, m.key, e.l.stringLen);
    SkipAtNonWs(e.src, pos);
    var q := pos + |k|;
    AtConcat(e.src, q, tok, u);
    AtBounds(e.src, q, tok);
    BlankEmpty(e.src, q);
    TokenComplete(e.src, q, q, m.colon, COLON);
    KeyColonStep(e, i, depth, n, acc, key, q);
    var c, r := q + |m.colon.before| + 1, q + |tok|;
    SkipBlank(e.src, c, r);
    AtBounds(e.src, r, u);
    ValueComplete(e, r, depth + 1, n, m.val, t);
    MemberStep(e, c, r, depth, n, acc, key, t, n + Nodes(t), r + |u|);
    next := ParseValue(e, r, depth + 1, n).value.next;
  }

  /** The tail of an object, from just after a member to its closing brace. */
  lemma {:induction false} MembersComplete(
    e: Env, i: nat, pos: nat, depth: nat, n: nat, acc: seq<Pair>, ms: Members, close: Pad, ps: seq<Pair>)
    requires WellFormedMembers(ms) && WellFormedPad(close) && Blank(e.src, i, pos)
    requires At(e.src, pos, MembersText(ms) + TokenText(close, RBRACE))
    requires MembersMeaning(ms, e.pal) == Some(ps)
    requires AllPairsFit(ps, e.l, depth) && |acc| + |ps| <= e.l.arrayLen && depth < e.l.depth
    requires n + PairNodes(ps) <= e.l.nodes
    ensures Good(e, ObjectCont(e, i, depth, n, acc), Obj(acc + ps), n + PairNodes(ps),
                 pos + |MembersText(ms) + TokenText(close, RBRACE)|)
    decreases ms, 1
  {
    hide *;
    StructuralBytes();
    if ms.NoMembers? {
      MembersCompleteNil(e, i, pos, depth, n, acc, close, ps);
    } else {
      var sep, m, more := ms.sep, ms.member, ms.members;
      MembersParts(ms, e.pal);
      var p, rest := MemberMeaning(m, e.pal).value, MembersMeaning(more, e.pal).value;
      ConsPairFacts(p, rest, e.l, depth);
      var tok, u, w := TokenText(sep, COMMA), MemberText(m), MembersText(more) + TokenText(close, RBRACE);
      MembersTextCons(sep, m, more, close);
      AtConcat(e.src, pos, tok, u + w);
      TokenComplete(e.src, i, pos, sep, COMMA);
      var c, q := pos + |sep.before| + 1, pos + |tok|;
      ObjectComma(e, i, depth, n, acc);
      SkipBlank(e.src, c, q);
      AtConcat(e.src, q, u, w);
      AtBounds(e.src, q, u);
      MembersEnd(e.src, q + |u|, more, close);
      var next := MemberComplete(e, c, q, depth, n, acc, m, p);
      MembersComplete(e, next, q + |u|, depth, n + Nodes(p.val), acc + [p], more, close, rest);
      assert acc + [p] + rest == acc + ([p] + rest);
    }
  }

  // ---------- values ----------

  /** Completeness for one value: it is parsed to its meaning wherever its text occurs. */
  lemma {:induction false} ValueComplete(e: Env, pos: nat, depth: nat, n: nat, v: Value, t: Json)
    requires WellFormed(v) && At(e.src, pos, ValueText(v)) && Ends(e.src, pos + |ValueText(v)|)
    requires Meaning(v, e.pal) == Some(t)
    requires depth >= 1 && Fits(t, e.l, depth - 1) && n + Nodes(t) <= e.l.nodes
    ensures Good(e, ParseValue(e, pos, depth, n), t, n + Nodes(t), pos + |ValueText(v)|)
    decreases v, 3
  {
    hide *;
    match v
    case EmptyArray(_, _) => EmptyArrayComplete(e, pos, depth, n, v, t);
    case EmptyObject(_, _) => EmptyObjectComplete(e, pos, depth, n, v, t);
    case Array(_, _, _, _) => ArrayComplete(e, pos, depth, n, v, t);
    case Object(_, _, _, _) => ObjectComplete(e, pos, depth, n, v, t);
    case _ => ScalarComplete(e, pos, depth, n, v, t);
  }

  lemma ScalarComplete(e: Env, pos: nat, depth: nat, n: nat, v: Value, t: Json)
    requires v.LitNull? || v.LitTrue? || v.LitFalse? || v.LitNumber? || v.LitString?
    requires WellFormed(v) && At(e.src, pos, ValueText(v)) && Ends(e.src, pos + |ValueText(v)|)
    requires Meaning(v, e.pal) == Some(t)
    requires depth >= 1 && Fits(t, e.l, depth - 1) && n + Nodes(t) <= e.l.nodes
    ensures Good(e, ParseValue(e, pos, depth, n), t, n + Nodes(t), pos + |ValueText(v)|)
  {
    hide At, CharsText, NumText, NumberAt, StringAt, CharsMeaning, QuotedText, NumberValue;
    AtBounds(e.src, pos, ValueText(v));
    match v
    case LitNull => AtConcat(e.src, pos, [0x6E], ULL); AtByte(e.src, pos, 0x6E);
    case LitTrue => AtConcat(e.src, pos, [0x74], RUE); AtByte(e.src, pos, 0x74);
    case LitFalse => AtConcat(e.src, pos, [0x66], ALSE); AtByte(e.src, pos, 0x66);
    case LitNumber(num) => NumberAtComplete(e.src, pos, num, e.pal, t); NumberIsLeaf(num, e.pal);
    case LitString(chars) => QuotedComplete(e.src, pos, chars, e.l.stringLen);
  }

  lemma NumberIsLeaf(num: NumberText, pal: Pal)
    requires WellFormedNumber(num) && Meaning(LitNumber(num), pal).Some?
    ensures Nodes(Meaning(LitNumber(num), pal).value) == 1
  {}

  lemma EmptyArrayComplete(e: Env, pos: nat, depth: nat, n: nat, v: Value, t: Json)
    requires v.EmptyArray? && WellFormed(v) && At(e.src, pos, ValueText(v))
    requires Meaning(v, e.pal) == Some(t)
    requires depth >= 1 && Fits(t, e.l, depth - 1) && n + Nodes(t) <= e.l.nodes
    ensures pos <= |e.src|
    ensures Good(e, ParseValue(e, pos, depth, n), t, n + Nodes(t), pos + |ValueText(v)|)
  {
    hide At, TokenText;
    var open, close := v.open, v.close;
    AtBounds(e.src, pos, ValueText(v));
    AtConcat(e.src, pos, TokenText(open, LBRACKET), TokenText(close, RBRACKET));
    TokenComplete(e.src, pos, pos, open, LBRACKET);
    TokenComplete(e.src, pos + |open.before| + 1, pos + |TokenText(open, LBRACKET)|, close, RBRACKET);
  }

  lemma EmptyObjectComplete(e: Env, pos: nat, depth: nat, n: nat, v: Value, t: Json)
    requires v.EmptyObject? && WellFormed(v) && At(e.src, pos, ValueText(v))
    requires Meaning(v, e.pal) == Some(t)
    requires depth >= 1 && Fits(t, e.l, depth - 1) && n + Nodes(t) <= e.l.nodes
    ensures pos <= |e.src|
    ensures Good(e, ParseValue(e, pos, depth, n), t, n + Nodes(t), pos + |ValueText(v)|)
  {
    hide At, TokenText;
    var open, close := v.open, v.close;
    AtBounds(e.src, pos, ValueText(v));
    AtConcat(e.src, pos, TokenText(open, LBRACE), TokenText(close, RBRACE));
    TokenComplete(e.src, pos, pos, open, LBRACE);
    TokenComplete(e.src, pos + |open.before| + 1, pos + |TokenText(open, LBRACE)|, close, RBRACE);
  }

  lemma ArrayParts(v: Value, pal: Pal, l: Limits, level: nat)
    requires v.Array? && WellFormed(v) && Meaning(v, pal).Some?
    ensures WellFormedPad(v.open) && WellFormed(v.first) && WellFormedItems(v.rest) && WellFormedPad(v.close)
    ensures Meaning(v.first, pal).Some? && ItemsMeaning(v.rest, pal).Some?
    ensures var t, ts := Meaning(v.first, pal).value, ItemsMeaning(v.rest, pal).value;
      && Meaning(v, pal).value == Arr([t] + ts)
      && Nodes(Arr([t] + ts)) == 1 + Nodes(t) + ItemNodes(ts)
      && (Fits(Arr([t] + ts), l, level) <==>
          level + 1 < l.depth && 1 + |ts| <= l.arrayLen && Fits(t, l, level + 1) && AllFit(ts, l, level + 1))
    ensures ValueText(v)
      == TokenText(v.open, LBRACKET) + (ValueText(v.first) + (ItemsText(v.rest) + TokenText(v.close, RBRACKET)))
  {
    ConsFacts(Meaning(v.first, pal).value, ItemsMeaning(v.rest, pal).value, l, level + 1);
  }

  /** An opening bracket that no closing bracket follows leads to the first item. */
  lemma OpenArray(e: Env, pos: nat, depth: nat, n: nat)
    requires pos <= |e.src| && SkipWs(e.src, pos) < |e.src| && e.src[SkipWs(e.src, pos)] == LBRACKET
    requires StartsValue(e.src, SkipWs(e.src, pos) + 1) && depth < e.l.depth && n < e.l.nodes
    ensures var q := SkipWs(e.src, SkipWs(e.src, pos) + 1);
      SkipWs(e.src, q) == q && ParseValue(e, pos, depth, n) == ParseItem(e, q, depth, n + 1, [])
  {}

  lemma OpenObject(e: Env, pos: nat, depth: nat, n: nat)
    requires pos <= |e.src| && SkipWs(e.src, pos) < |e.src| && e.src[SkipWs(e.src, pos)] == LBRACE
    requires StartsValue(e.src, SkipWs(e.src, pos) + 1) && depth < e.l.depth && n < e.l.nodes
    ensures var q := SkipWs(e.src, SkipWs(e.src, pos) + 1);
      SkipWs(e.src, q) == q && ParseValue(e, pos, depth, n) == ParseKey(e, q, depth, n + 1, [])
  {}

  lemma SameStartsValue(s: bytes, i: nat, j: nat)
    requires i <= |s| && j <= |s| && SkipWs(s, i) == SkipWs(s, j) && StartsValue(s, j)
    ensures StartsValue(s, i)
  {}

  lemma {:induction false} ArrayComplete(e: Env, pos: nat, depth: nat, n: nat, v: Value, t: Json)
    requires v.Array? && WellFormed(v) && At(e.src, pos, ValueText(v))
    requires Meaning(v, e.pal) == Some(t)
    requires depth >= 1 && Fits(t, e.l, depth - 1) && n + Nodes(t) <= e.l.nodes
    ensures pos <= |e.src|
    ensures Good(e, ParseValue(e, pos, depth, n), t, n + Nodes(t), pos + |ValueText(v)|)
    decreases v, 2
  {
    hide *;
    StructuralBytes();
    ArrayParts(v, e.pal, e.l, depth - 1);
    var t1, ts := Meaning(v.first, e.pal).value, ItemsMeaning(v.rest, e.pal).value;
    var tok, u, w := TokenText(v.open, LBRACKET), ValueText(v.first), ItemsText(v.rest) + TokenText(v.close, RBRACKET);
    AtBounds(e.src, pos, ValueText(v));
    AtConcat(e.src, pos, tok, u + w);
    BlankEmpty(e.src, pos);
    TokenComplete(e.src, pos, pos, v.open, LBRACKET);
    var p, r := pos + |v.open.before| + 1, pos + |tok|;
    AtConcat(e.src, r, u, w);
    AtBounds(e.src, r, u);
    SkipBlank(e.src, p, r);
    ValueStarts(e.src, r, v.first);
    SameStartsValue(e.src, p, r);
    OpenArray(e, pos, depth, n);
    ItemsEnd(e.src, r + |u|, v.rest, v.close);
    ValueComplete(e, r, depth + 1, n + 1, v.first, t1);
    var q := SkipWs(e.src, p);
    ItemStep(e, q, r, depth, n + 1, [], t1, n + 1 + Nodes(t1), r + |u|);
    var next := ParseValue(e, r, depth + 1, n + 1).value.next;
    ItemsComplete(e, next, r + |u|, depth, n + 1 + Nodes(t1), [] + [t1], v.rest, v.close, ts);
    assert [] + [t1] + ts == [t1] + ts;
  }

  lemma ObjectParts(v: Value, pal: Pal, l: Limits, level: nat)
    requires v.Object? && WellFormed(v) && Meaning(v, pal).Some?
    ensures WellFormedPad(v.open) && WellFormedMember(v.head) && WellFormedMembers(v.tail) && WellFormedPad(v.close)
    ensures MemberMeaning(v.head, pal).Some? && MembersMeaning(v.tail, pal).Some?
    ensures var p, ps := MemberMeaning(v.head, pal).value, MembersMeaning(v.tail, pal).value;
      && Meaning(v, pal).value == Obj([p] + ps)
      && Nodes(Obj([p] + ps)) == 1 + Nodes(p.val) + PairNodes(ps)
      && (Fits(Obj([p] + ps), l, level) <==>
          level + 1 < l.depth && 1 + |ps| <= l.arrayLen && PairFits(p, l, level + 1) && AllPairsFit(ps, l, level + 1))
    ensures ValueText(v)
      == TokenText(v.open, LBRACE) + (MemberText(v.head) + (MembersText(v.tail) + TokenText(v.close, RBRACE)))
  {
    ConsPairFacts(MemberMeaning(v.head, pal).value, MembersMeaning(v.tail, pal).value, l, level + 1);
  }

  lemma MemberStarts(s: bytes, pos: nat, m: Member)
    requires WellFormedMember(m) && At(s, pos, MemberText(m))
    ensures StartsValue(s, pos)
  {
    hide At, CharsText, TokenText, ValueText;
    var rest := TokenText(m.colon, COLON) + ValueText(m.val);
    AtBounds(s, pos, MemberText(m));
    AtConcat(s, pos, QuotedText(m.key), rest);
    AtConcat(s, pos, [QUOTE], CharsText(m.key) + [QUOTE]);
    AtByte(s, pos, QUOTE);
  }

  lemma {:induction false} ObjectComplete(e: Env, pos: nat, depth: nat, n: nat, v: Value, t: Json)
    requires v.Object? && WellFormed(v) && At(e.src, pos, ValueText(v))
    requires Meaning(v, e.pal) == Some(t)
    requires depth >= 1 && Fits(t, e.l, depth - 1) && n + Nodes(t) <= e.l.nodes
    ensures pos <= |e.src|
    ensures Good(e, ParseValue(e, pos, depth, n), t, n + Nodes(t), pos + |ValueText(v)|)
    decreases v, 2
  {
    hide *;
    StructuralBytes();
    ObjectParts(v, e.pal, e.l, depth - 1);
    var p1, ps := MemberMeaning(v.head, e.pal).value, MembersMeaning(v.tail, e.pal).value;
    var tok, u, w := TokenText(v.open, LBRACE), MemberText(v.head), MembersText(v.tail) + TokenText(v.close, RBRACE);
    AtBounds(e.src, pos, ValueText(v));
    AtConcat(e.src, pos, tok, u + w);
    BlankEmpty(e.src, pos);
    TokenComplete(e.src, pos, pos, v.open, LBRACE);
    var p, r := pos + |v.open.before| + 1, pos + |tok|;
    AtConcat(e.src, r, u, w);
    AtBounds(e.src, r, u);
    SkipBlank(e.src, p, r);
    MemberStarts(e.src, r, v.head);
    SameStartsValue(e.src, p, r);
    OpenObject(e, pos, depth, n);
    MembersEnd(e.src, r + |u|, v.tail, v.close);
    var next := MemberComplete(e, SkipWs(e.src, p), r, depth, n + 1, [], v.head, p1);
    MembersComplete(e, next, r + |u|, depth, n + 1 + Nodes(p1.val), [] + [p1], v.tail, v.close, ps);
    assert [] + [p1] + ps == [p1] + ps;
  }

  lemma FinishDocument(e: Env, n: nat, end: nat, t: Json, n': nat)
    requires Good(e, ParseValue(e, 0, 1, n), t, n', end) && Blank(e.src, end, |e.src|)
    ensures ParseDocument(e, n).Ok?
    ensures ParseDocument(e, n).value.value == t && ParseDocument(e, n).value.nodes == n'
  {
    hide ParseValue;
    var next := ParseValue(e, 0, 1, n).value.next;
    SkipBlank(e.src, next, end);
    SkipBlank(e.src, end, |e.src|);
  }

  lemma BlankEnds(s: bytes, i: nat)
    requires Blank(s, i, |s|)
    ensures Ends(s, i)
  {}

  /** Every text that derives a tree within the limits is parsed to that tree, node for node. */
  lemma DocumentComplete(e: Env, n: nat, d: Document, t: Json)
    requires IsDerivation(d, e.src, t, e.pal) && Fits(t, e.l, 0) && n + Nodes(t) <= e.l.nodes
    ensures ParseDocument(e, n).Ok?
    ensures ParseDocument(e, n).value.value == t && ParseDocument(e, n).value.nodes == n + Nodes(t)
  {
    hide At, ValueText, ParseValue, ParseDocument, Fits, Nodes, WellFormed, Meaning;
    var s, u := e.src, ValueText(d.value);
    WholeText(s);
    AtConcat(s, 0, d.before, u + d.after);
    var pos := |d.before|;
    AtConcat(s, pos, u, d.after);
    BlankAt(s, 0, d.before);
    BlankAt(s, pos + |u|, d.after);
    SkipBlank(s, 0, pos);
    BlankEnds(s, pos + |u|);
    SameStart(e, 0, pos, 1, n);
    ValueComplete(e, pos, 1, n, d.value, t);
    FinishDocument(e, n, pos + |u|, t, n + Nodes(t));
  }

  lemma WholeText(s: bytes)
    ensures At(s, 0, s)
  {}
}
