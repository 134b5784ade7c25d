/** Where the limits of json_parse lie, to the last node, level, element and byte. */
module Boundaries {
  import opened Base
  import opened Utf8
  import opened Tree
  import opened ParserSpec
  import opened Objects
  import opened WriterSpec
  import opened RoundTrip

  /** The text of a value, parsed with `n` nodes already allocated. */
  function Reparse(t: Json, st: Style, l: Limits, n: nat): Result<Parsed> {
    ParseDocument(Env(DocumentOut(t, st).text, l, st.pal), n)
  }

  lemma Reparsed(t: Json, st: Style, l: Limits, n: nat)
    requires Arranges(t, t, st.opts.sortKeys) && Proper(t) && Readable(t, st.pal) && Shallow(t, st.maxDepth, 0)
    ensures Reparse(t, st, l, n).Ok? <==> Fits(t, l, 0) && n + Nodes(t) <= l.nodes
  {
    hide *;
    WritableIff(t, st, 0);
    DocumentClean(t, st);
    WriteThenParse(t, t, st, l, n);
    ReparseIs(t, st, l, n);
  }

  lemma ReparseIs(t: Json, st: Style, l: Limits, n: nat)
    ensures Reparse(t, st, l, n) == ParseDocument(Env(DocumentOut(t, st).text, l, st.pal), n)
  {}

  /** A string is read back exactly when its length is within the limit; the quotes and escapes do not count. */
  lemma StringBoundary(s: bytes, st: Style, l: Limits, n: nat)
    requires ValidUtf8(s) && st.maxDepth >= 1
    ensures Reparse(Str(s), st, l, n).Ok? <==> |s| <= l.stringLen && n + 1 <= l.nodes
  {
    Reparsed(Str(s), st, l, n);
    hide Reparse;
  }

  /** Null, a boolean or an integer of 64 bits. */
  predicate IsPlainScalar(t: Json) { t.Null? || t.Bool? || (t.Int? && INT64_MIN <= t.i <= INT64_MAX) }

  lemma {:induction false} FlatNodes(items: seq<Json>)
    requires forall k :: 0 <= k < |items| ==> IsPlainScalar(items[k])
    ensures ItemNodes(items) == |items|
  {
    if items != [] { FlatNodes(items[1..]); }
  }

  /** A flat array: one node for each item and one for itself, two levels, and the length limit itself is admitted. */
  lemma ArrayBoundary(items: seq<Json>, st: Style, l: Limits, n: nat)
    requires (forall k :: 0 <= k < |items| ==> IsPlainScalar(items[k])) && st.maxDepth >= 2
    ensures Reparse(Arr(items), st, l, n).Ok? <==>
      2 <= l.depth && |items| <= l.arrayLen && n + |items| + 1 <= l.nodes
  {
    FlatNodes(items);
    Reparsed(Arr(items), st, l, n);
    hide Reparse;
  }

  lemma {:induction false} FlatPairNodes(pairs: seq<Pair>)
    requires forall k :: 0 <= k < |pairs| ==> IsPlainScalar(pairs[k].val)
    ensures PairNodes(pairs) == |pairs|
  {
    if pairs != [] { FlatPairNodes(pairs[1..]); }
  }

  /** A flat object: the same, and keys are under the limit for strings but are not nodes. */
  lemma ObjectBoundary(pairs: seq<Pair>, st: Style, l: Limits, n: nat)
    requires forall k :: 0 <= k < |pairs| ==> IsPlainScalar(pairs[k].val) && ValidUtf8(pairs[k].key)
    requires st.maxDepth >= 2 && !st.opts.sortKeys
    ensures Reparse(Obj(pairs), st, l, n).Ok? <==>
      && 2 <= l.depth && |pairs| <= l.arrayLen && n + |pairs| + 1 <= l.nodes
      && forall k :: 0 <= k < |pairs| ==> |pairs[k].key| <= l.stringLen
  {
    FlatPairNodes(pairs);
    FlatPairs(pairs, st, l);
    Reparsed(Obj(pairs), st, l, n);
    hide Reparse, Arranges, Proper, Readable, Shallow;
  }

  lemma ScalarIsPlain(t: Json, st: Style)
    requires IsPlainScalar(t) && st.maxDepth >= 2
    ensures Proper(t) && Readable(t, st.pal) && Shallow(t, st.maxDepth, 1)
  {}

  lemma FlatPairs(pairs: seq<Pair>, st: Style, l: Limits)
    requires forall k :: 0 <= k < |pairs| ==> IsPlainScalar(pairs[k].val) && ValidUtf8(pairs[k].key)
    requires st.maxDepth >= 2
    ensures Arranges(Obj(pairs), Obj(pairs), false)
    ensures Proper(Obj(pairs)) && Readable(Obj(pairs), st.pal) && Shallow(Obj(pairs), st.maxDepth, 0)
    ensures Fits(Obj(pairs), l, 0) <==>
      2 <= l.depth && |pairs| <= l.arrayLen && forall k :: 0 <= k < |pairs| ==> |pairs[k].key| <= l.stringLen
  {
    hide ValidUtf8;
    var order := Identity(|pairs|);
    assert WriteOrder(pairs, order, false);
    forall k | 0 <= k < |pairs| ensures ArrangedPair(pairs, pairs[k], order[k], false) {
      assert Arranges(pairs[k].val, pairs[k].val, false);
    }
    assert ArrangesBy(pairs, pairs, order, false);
    forall k | 0 <= k < |pairs|
      ensures PairFits(pairs[k], l, 1) <==> |pairs[k].key| <= l.stringLen
      ensures ProperPair(pairs[k]) && ReadablePair(pairs[k], st.pal) && ShallowPair(pairs[k], st.maxDepth, 1)
    {
      assert Fits(pairs[k].val, l, 1);
      ScalarIsPlain(pairs[k].val, st);
    }
  }

  lemma {:induction false} NestSize(k: nat, l: Limits, level: nat)
    ensures Nodes(Nest(k)) == k + 1
    ensures Fits(Nest(k), l, level) <==> level + k + 2 <= l.depth && (k == 0 || 1 <= l.arrayLen)
    decreases k
  {
    if k > 0 {
      NestSize(k - 1, l, level + 1);
      assert Nest(k).items[0] == Nest(k - 1);
      assert ItemNodes([Nest(k - 1)]) == Nodes(Nest(k - 1)) + ItemNodes([]);
    }
  }

  /** k + 1 nested arrays, the innermost empty, need a depth limit of k + 2 and k + 1 nodes. */
  lemma DepthBoundary(k: nat, st: Style, l: Limits, n: nat)
    requires st.maxDepth > k
    ensures Reparse(Nest(k), st, l, n).Ok? <==>
      k + 2 <= l.depth && (k == 0 || 1 <= l.arrayLen) && n + k + 1 <= l.nodes
  {
    NestFacts(k, st, l, 0, st.opts.sortKeys);
    NestSize(k, l, 0);
    Reparsed(Nest(k), st, l, n);
    hide Reparse, Nest, Fits, Nodes;
  }
}
