/** The limit errors of json_parse: each is reported exactly when raising that limit alone changes the outcome. */
module ParserLimits {
  import opened Base
  import opened Utf8
  import opened Tree
  import opened StringLex
  import opened Numbers
  import opened ParserSpec

  // ---------- raising a limit ----------

  /** `m` raises some limits of `l`, and `x` is not the error of a limit that is raised. */
  predicate Raises<T>(l: Limits, m: Limits, x: Result<T>) {
    && NoLess(l, m)
    && (l.depth < m.depth ==> x != Err(DepthExceeded))
    && (l.nodes < m.nodes ==> x != Err(NodeLimit))
    && (l.arrayLen < m.arrayLen || l.stringLen < m.stringLen ==> x != Err(Overflow))
  }

  lemma RaisedString(s: bytes, i: nat, l: Limits, m: Limits)
    requires i <= |s| && Raises(l, m, StringAt(s, i, l.stringLen))
    ensures StringAt(s, i, m.stringLen) == StringAt(s, i, l.stringLen)
  {}

  lemma {:induction false} RaisedValue(e: Env, m: Limits, pos: nat, depth: nat, n: nat)
    requires pos <= |e.src| && Raises(e.l, m, ParseValue(e, pos, depth, n))
    ensures ParseValue(e.(l := m), pos, depth, n) == ParseValue(e, pos, depth, n)
    decreases |e.src| - pos, 0
  {
    hide ParseItem, ArrayCont, ParseKey, ParseColon, ParseMember, ObjectCont;
    var s, p := e.src, SkipWs(e.src, pos);
    if p < |s| && n < e.l.nodes {
      if s[p] == QUOTE {
        RaisedString(s, p + 1, e.l, m);
      } else if s[p] == LBRACKET && depth < e.l.depth {
        var q := SkipWs(s, p + 1);
        if q == |s| || s[q] != RBRACKET { RaisedItem(e, m, q, depth, n + 1, []); }
      } else if s[p] == LBRACE && depth < e.l.depth {
        var q := SkipWs(s, p + 1);
        if q == |s| || s[q] != RBRACE { RaisedKey(e, m, q, depth, n + 1, []); }
      }
    }
  }

  lemma {:induction false} RaisedItem(e: Env, m: Limits, pos: nat, depth: nat, n: nat, items: seq<Json>)
    requires pos <= |e.src| && Raises(e.l, m, ParseItem(e, pos, depth, n, items))
    ensures ParseItem(e.(l := m), pos, depth, n, items) == ParseItem(e, pos, depth, n, items)
    decreases |e.src| - pos, 1
  {
    hide ParseValue, ArrayCont, ParseKey, ParseColon, ParseMember, ObjectCont;
    RaisedValue(e, m, pos, depth + 1, n);
    var v := ParseValue(e, pos, depth + 1, n);
    if v.Ok? && |items| < e.l.arrayLen {
      RaisedArrayCont(e, m, v.value.next, depth, v.value.nodes, items + [v.value.value]);
    }
  }

  lemma {:induction false} RaisedArrayCont(e: Env, m: Limits, pos: nat, depth: nat, n: nat, items: seq<Json>)
    requires pos <= |e.src| && Raises(e.l, m, ArrayCont(e, pos, depth, n, items))
    ensures ArrayCont(e.(l := m), pos, depth, n, items) == ArrayCont(e, pos, depth, n, items)
    decreases |e.src| - pos, 0
  {
    hide ParseValue, ParseItem, ParseKey, ParseColon, ParseMember, ObjectCont;
    var p := SkipWs(e.src, pos);
    if p < |e.src| && e.src[p] == COMMA && depth < e.l.depth { RaisedItem(e, m, p + 1, depth, n, items); }
  }

  lemma {:induction false} RaisedKey(e: Env, m: Limits, pos: nat, depth: nat, n: nat, pairs: seq<Pair>)
    requires pos <= |e.src| && Raises(e.l, m, ParseKey(e, pos, depth, n, pairs))
    ensures ParseKey(e.(l := m), pos, depth, n, pairs) == ParseKey(e, pos, depth, n, pairs)
    decreases |e.src| - pos, 0
  {
    hide ParseValue, ParseItem, ArrayCont, ParseColon, ParseMember, ObjectCont;
    var p := SkipWs(e.src, pos);
    if p < |e.src| && e.src[p] == QUOTE {
      RaisedString(e.src, p + 1, e.l, m);
      var lit := StringAt(e.src, p + 1, e.l.stringLen);
      if lit.Ok? { RaisedColon(e, m, lit.value.next, depth, n, pairs, lit.value.value); }
    }
  }

  lemma {:induction false} RaisedColon(e: Env, m: Limits, pos: nat, depth: nat, n: nat, pairs: seq<Pair>, key: bytes)
    requires pos <= |e.src| && Raises(e.l, m, ParseColon(e, pos, depth, n, pairs, key))
    ensures ParseColon(e.(l := m), pos, depth, n, pairs, key) == ParseColon(e, pos, depth, n, pairs, key)
    decreases |e.src| - pos, 0
  {
    hide ParseValue, ParseItem, ArrayCont, ParseKey, ParseMember, ObjectCont;
    var p := SkipWs(e.src, pos);
    if p < |e.src| && e.src[p] == COLON && depth < e.l.depth { RaisedMember(e, m, p + 1, depth, n, pairs, key); }
  }

  lemma {:induction false} RaisedMember(e: Env, m: Limits, pos: nat, depth: nat, n: nat, pairs: seq<Pair>, key: bytes)
    requires pos <= |e.src| && Raises(e.l, m, ParseMember(e, pos, depth, n, pairs, key))
    ensures ParseMember(e.(l := m), pos, depth, n, pairs, key) == ParseMember(e, pos, depth, n, pairs, key)
    decreases |e.src| - pos, 1
  {
    hide ParseValue, ParseItem, ArrayCont, ParseKey, ParseColon, ObjectCont;
    RaisedValue(e, m, pos, depth + 1, n);
    var v := ParseValue(e, pos, depth + 1, n);
    if v.Ok? && |pairs| < e.l.arrayLen {
      RaisedObjectCont(e, m, v.value.next, depth, v.value.nodes, pairs + [Pair(key, v.value.value)]);
    }
  }

  lemma {:induction false} RaisedObjectCont(e: Env, m: Limits, pos: nat, depth: nat, n: nat, pairs: seq<Pair>)
    requires pos <= |e.src| && Raises(e.l, m, ObjectCont(e, pos, depth, n, pairs))
    ensures ObjectCont(e.(l := m), pos, depth, n, pairs) == ObjectCont(e, pos, depth, n, pairs)
    decreases |e.src| - pos, 0
  {
    hide ParseValue, ParseItem, ArrayCont, ParseKey, ParseColon, ParseMember;
    var p := SkipWs(e.src, pos);
    if p < |e.src| && e.src[p] == COMMA { RaisedKey(e, m, p + 1, depth, n, pairs); }
  }

  /** Raising limits changes the outcome only if it was the error of a limit that is raised. */
  lemma MoreRoom(e: Env, m: Limits, n: nat)
    requires Raises(e.l, m, ParseDocument(e, n))
    ensures ParseDocument(e.(l := m), n) == ParseDocument(e, n)
  {
    RaisedValue(e, m, 0, 1, n);
  }

  // ---------- enough room ----------

  /** What a parse says that starts at `pos` at that depth, with `n` nodes allocated. */
  predicate Within(e: Env, pos: nat, depth: nat, n: nat, r: Result<Parsed>) {
    && (depth + |e.src| < e.l.depth + pos ==> r != Err(DepthExceeded))
    && (n + |e.src| <= e.l.nodes + pos ==> r != Err(NodeLimit))
    && (r.Ok? ==> r.value.nodes + pos <= n + r.value.next)
  }

  lemma ScalarErrors(e: Env, i: nat)
    requires i <= |e.src|
    ensures StringAt(e.src, i, e.l.stringLen).Err? ==>
      StringAt(e.src, i, e.l.stringLen).error in {UnexpectedEof, InvalidString, InvalidUtf8, Overflow}
    ensures NumberAt(e.src, i, e.pal).Err? ==>
      NumberAt(e.src, i, e.pal).error in {UnexpectedEof, InvalidNumber, Overflow}
  {
    ContentErrors(e.src, i);
  }

  lemma {:induction false} ContentErrors(s: bytes, i: nat)
    requires i <= |s|
    ensures ContentAt(s, i).Err? ==> ContentAt(s, i).error in {UnexpectedEof, InvalidString, InvalidUtf8}
    decreases |s| - i
  {
    hide DecodeAt, Encode, Hex4, PairValue, ShortEscape;
    if i < |s| && s[i] != QUOTE && ItemAt(s, i).Ok? { ContentErrors(s, i + ItemAt(s, i).value.len); }
  }

  lemma {:induction false} WithinValue(e: Env, pos: nat, depth: nat, n: nat)
    requires pos <= |e.src|
    ensures Within(e, pos, depth, n, ParseValue(e, pos, depth, n))
    decreases |e.src| - pos, 0
  {
    hide StringAt, NumberAt, SkipWs, ParseItem, ArrayCont, ParseKey, ParseColon, ParseMember, ObjectCont;
    var s, p := e.src, SkipWs(e.src, pos);
    if p < |s| && n < e.l.nodes {
      ScalarErrors(e, p + 1);
      ScalarErrors(e, p);
      if s[p] == LBRACKET && depth < e.l.depth {
        var q := SkipWs(s, p + 1);
        if q == |s| || s[q] != RBRACKET { WithinItem(e, q, depth, n + 1, []); }
      } else if s[p] == LBRACE && depth < e.l.depth {
        var q := SkipWs(s, p + 1);
        if q == |s| || s[q] != RBRACE { WithinKey(e, q, depth, n + 1, []); }
      }
    }
  }

  lemma {:induction false} WithinItem(e: Env, pos: nat, depth: nat, n: nat, items: seq<Json>)
    requires pos <= |e.src|
    ensures Within(e, pos, depth + 1, n, ParseItem(e, pos, depth, n, items))
    decreases |e.src| - pos, 1
  {
    hide ParseValue, ArrayCont, ParseKey, ParseColon, ParseMember, ObjectCont;
    WithinValue(e, pos, depth + 1, n);
    var v := ParseValue(e, pos, depth + 1, n);
    if v.Ok? && |items| < e.l.arrayLen {
      WithinArrayCont(e, v.value.next, depth, v.value.nodes, items + [v.value.value]);
    }
  }

  lemma {:induction false} WithinArrayCont(e: Env, pos: nat, depth: nat, n: nat, items: seq<Json>)
    requires pos <= |e.src|
    ensures Within(e, pos, depth, n, ArrayCont(e, pos, depth, n, items))
    decreases |e.src| - pos, 0
  {
    hide ParseValue, ParseItem, ParseKey, ParseColon, ParseMember, ObjectCont;
    var p := SkipWs(e.src, pos);
    if p < |e.src| && e.src[p] == COMMA && depth < e.l.depth { WithinItem(e, p + 1, depth, n, items); }
  }

  lemma {:induction false} WithinKey(e: Env, pos: nat, depth: nat, n: nat, pairs: seq<Pair>)
    requires pos <= |e.src|
    ensures Within(e, pos, depth, n, ParseKey(e, pos, depth, n, pairs))
    decreases |e.src| - pos, 0
  {
    hide StringAt, ParseValue, ParseItem, ArrayCont, ParseColon, ParseMember, ObjectCont;
    var p := SkipWs(e.src, pos);
    if p < |e.src| && e.src[p] == QUOTE {
      ScalarErrors(e, p + 1);
      var lit := StringAt(e.src, p + 1, e.l.stringLen);
      if lit.Ok? { WithinColon(e, lit.value.next, depth, n, pairs, lit.value.value); }
    }
  }

  lemma {:induction false} WithinColon(e: Env, pos: nat, depth: nat, n: nat, pairs: seq<Pair>, key: bytes)
    requires pos <= |e.src|
    ensures Within(e, pos, depth, n, ParseColon(e, pos, depth, n, pairs, key))
    decreases |e.src| - pos, 0
  {
    hide ParseValue, ParseItem, ArrayCont, ParseKey, ParseMember, ObjectCont;
    var p := SkipWs(e.src, pos);
    if p < |e.src| && e.src[p] == COLON && depth < e.l.depth { WithinMember(e, p + 1, depth, n, pairs, key); }
  }

  lemma {:induction false} WithinMember(e: Env, pos: nat, depth: nat, n: nat, pairs: seq<Pair>, key: bytes)
    requires pos <= |e.src|
    ensures Within(e, pos, depth + 1, n, ParseMember(e, pos, depth, n, pairs, key))
    decreases |e.src| - pos, 1
  {
    hide ParseValue, ParseItem, ArrayCont, ParseKey, ParseColon, ObjectCont;
    WithinValue(e, pos, depth + 1, n);
    var v := ParseValue(e, pos, depth + 1, n);
    if v.Ok? && |pairs| < e.l.arrayLen {
      WithinObjectCont(e, v.value.next, depth, v.value.nodes, pairs + [Pair(key, v.value.value)]);
    }
  }

  lemma {:induction false} WithinObjectCont(e: Env, pos: nat, depth: nat, n: nat, pairs: seq<Pair>)
    requires pos <= |e.src|
    ensures Within(e, pos, depth, n, ObjectCont(e, pos, depth, n, pairs))
    decreases |e.src| - pos, 0
  {
    hide ParseValue, ParseItem, ArrayCont, ParseKey, ParseColon, ParseMember;
    var p := SkipWs(e.src, pos);
    if p < |e.src| && e.src[p] == COMMA { WithinKey(e, p + 1, depth, n, pairs); }
  }

  /** DEPTH_EXCEEDED is reported exactly when some greater depth limit alone gives another outcome. */
  lemma DepthErrorExact(e: Env, n: nat)
    ensures ParseDocument(e, n) == Err(DepthExceeded) <==>
      exists d: nat :: d >= e.l.depth && ParseDocument(e.(l := e.l.(depth := d)), n) != ParseDocument(e, n)
  {
    hide ParseValue;
    if ParseDocument(e, n) == Err(DepthExceeded) {
      var d := e.l.depth + |e.src| + 2;
      WithinValue(e.(l := e.l.(depth := d)), 0, 1, n);
      assert ParseDocument(e.(l := e.l.(depth := d)), n) != ParseDocument(e, n);
    } else {
      forall d: nat | d >= e.l.depth
        ensures ParseDocument(e.(l := e.l.(depth := d)), n) == ParseDocument(e, n)
      {
        MoreRoom(e, e.l.(depth := d), n);
      }
    }
  }

  /** NODE_LIMIT is reported exactly when some greater node limit alone gives another outcome. */
  lemma NodeErrorExact(e: Env, n: nat)
    ensures ParseDocument(e, n) == Err(NodeLimit) <==>
      exists k: nat :: k >= e.l.nodes && ParseDocument(e.(l := e.l.(nodes := k)), n) != ParseDocument(e, n)
  {
    hide ParseValue;
    if ParseDocument(e, n) == Err(NodeLimit) {
      var k := e.l.nodes + n + |e.src|;
      WithinValue(e.(l := e.l.(nodes := k)), 0, 1, n);
      assert ParseDocument(e.(l := e.l.(nodes := k)), n) != ParseDocument(e, n);
    } else {
      forall k: nat | k >= e.l.nodes
        ensures ParseDocument(e.(l := e.l.(nodes := k)), n) == ParseDocument(e, n)
      {
        MoreRoom(e, e.l.(nodes := k), n);
      }
    }
  }
}
