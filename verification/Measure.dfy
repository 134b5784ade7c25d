/** Rearranging members changes neither the length of the output nor the size of the tree. */
module Measure {
  import opened Base
  import opened Tree
  import opened Objects
  import opened WriterSpec
  import opened Arrangement
  import opened Writer

  // ---------- sums over rearranged indices ----------

  function Sum(f: nat -> nat, s: seq<nat>): nat {
    if s == [] then 0 else Sum(f, s[..|s| - 1]) + f(s[|s| - 1])
  }

  lemma {:induction false} SumRemove(f: nat -> nat, s: seq<nat>, j: nat)
    requires j < |s|
    ensures Sum(f, s) == Sum(f, s[..j] + s[j + 1..]) + f(s[j])
    decreases |s|
  {
    var n := |s| - 1;
    var cut := s[..j] + s[j + 1..];
    if j == n {
      assert cut == s[..n];
    } else {
      SumRemove(f, s[..n], j);
      assert cut[..n - 1] == s[..n][..j] + s[..n][j + 1..];
    }
  }

  /** A sum does not depend on the order. */
  lemma {:induction false} SumSame(f: nat -> nat, s: seq<nat>, t: seq<nat>)
    requires multiset(s) == multiset(t)
    ensures Sum(f, s) == Sum(f, t)
    decreases |s|
  {
    assert |s| == |multiset(s)| && |t| == |multiset(t)|;
    if s != [] {
      var n := |s| - 1;
      var x := s[n];
      assert s == s[..n] + [x];
      assert x in multiset(t);
      var j :| 0 <= j < |t| && t[j] == x;
      var cut := t[..j] + t[j + 1..];
      assert t == t[..j] + [x] + t[j + 1..];
      assert multiset(cut) == multiset(t) - multiset{x};
      SumSame(f, s[..n], cut);
      SumRemove(f, t, j);
    }
  }

  // ---------- the output of a container, by its elements ----------

  function Commas(n: nat): nat { if n == 0 then 0 else n - 1 }

  /** Length of one member with its line break and key. */
  function Weight(p: Pair, st: Style, depth: nat): nat {
    |LineBreak(st, depth)| + |KeyText(p.key, st)| + |ValueOut(p.val, st, depth).text|
  }

  /** Same success, and then the same length. */
  predicate Alike(a: Out, b: Out) { (a.error.None? <==> b.error.None?) && (a.error.None? ==> |a.text| == |b.text|) }

  /** The last member decides with those before it, and adds its comma and its weight. */
  lemma PairsLast(ps: seq<Pair>, st: Style, depth: nat)
    requires ps != []
    ensures var n := |ps| - 1;
      var before, whole, v := PairsOut(ps[..n], st, depth), PairsOut(ps, st, depth), ValueOut(ps[n].val, st, depth);
      && (whole.error.None? <==> before.error.None? && v.error.None?)
      && (whole.error.None? ==> |whole.text| == |before.text| + (if n > 0 then 1 else 0) + Weight(ps[n], st, depth))
  {
    hide LineBreak, KeyText, ValueOut, PairsOut;
    var n := |ps| - 1;
    assert ps == ps[..n] + [ps[n]];
    PairsSnoc(ps[..n], ps[n], st, depth);
  }

  lemma ItemsLast(ts: seq<Json>, st: Style, depth: nat)
    requires ts != []
    ensures var n := |ts| - 1;
      var before, whole, v := ItemsOut(ts[..n], st, depth), ItemsOut(ts, st, depth), ValueOut(ts[n], st, depth);
      && (whole.error.None? <==> before.error.None? && v.error.None?)
      && (whole.error.None? ==>
            |whole.text| == |before.text| + (if n > 0 then 1 else 0) + |LineBreak(st, depth)| + |v.text|)
  {
    hide LineBreak, ValueOut, ItemsOut;
    var n := |ts| - 1;
    assert ts == ts[..n] + [ts[n]];
    ItemsSnoc(ts[..n], ts[n], st, depth);
  }

  lemma NothingOut(st: Style, depth: nat)
    ensures PairsOut([], st, depth) == Done([]) && ItemsOut([], st, depth) == Done([])
  {}

  lemma {:induction false} PairsMeasure(ps: seq<Pair>, f: nat -> nat, o: seq<nat>, st: Style, depth: nat)
    requires |o| == |ps|
    requires forall k :: 0 <= k < |ps| ==>
      ValueOut(ps[k].val, st, depth).error.None? && Weight(ps[k], st, depth) == f(o[k])
    ensures PairsOut(ps, st, depth).error.None?
    ensures |PairsOut(ps, st, depth).text| == Commas(|ps|) + Sum(f, o)
    decreases |ps|
  {
    hide LineBreak, KeyText, ValueOut, PairsOut, Weight;
    NothingOut(st, depth);
    if ps != [] {
      var n := |ps| - 1;
      PairsMeasure(ps[..n], f, o[..n], st, depth);
      PairsLast(ps, st, depth);
    }
  }

  lemma {:induction false} PairsClean(ps: seq<Pair>, st: Style, depth: nat)
    ensures PairsOut(ps, st, depth).error.None?
      <==> forall k :: 0 <= k < |ps| ==> ValueOut(ps[k].val, st, depth).error.None?
    decreases |ps|
  {
    hide LineBreak, KeyText, ValueOut, PairsOut, Weight;
    NothingOut(st, depth);
    if ps != [] {
      var n := |ps| - 1;
      PairsClean(ps[..n], st, depth);
      PairsLast(ps, st, depth);
    }
  }

  lemma {:induction false} ItemsAlike(items: seq<Json>, us: seq<Json>, st: Style, depth: nat)
    requires |us| == |items|
    requires forall k :: 0 <= k < |items| ==> Alike(ValueOut(items[k], st, depth), ValueOut(us[k], st, depth))
    ensures Alike(ItemsOut(items, st, depth), ItemsOut(us, st, depth))
    decreases |items|
  {
    hide LineBreak, ValueOut, ItemsOut;
    NothingOut(st, depth);
    if items != [] {
      var n := |items| - 1;
      ItemsAlike(items[..n], us[..n], st, depth);
      ItemsLast(items, st, depth);
      ItemsLast(us, st, depth);
    }
  }

  lemma PairsAlike(pairs: seq<Pair>, qs: seq<Pair>, order: seq<nat>, st: Style, depth: nat)
    requires IsPermutation(order, |pairs|) && |qs| == |pairs| == |order|
    requires forall k :: 0 <= k < |order| ==> order[k] < |pairs|
    requires forall k :: 0 <= k < |qs| ==> qs[k].key == pairs[order[k]].key
    requires forall k :: 0 <= k < |qs| ==>
      Alike(ValueOut(pairs[order[k]].val, st, depth), ValueOut(qs[k].val, st, depth))
    ensures Alike(PairsOut(pairs, st, depth), PairsOut(qs, st, depth))
  {
    hide LineBreak, KeyText, ValueOut, IsPermutation, PairsOut, Weight, Sum;
    PairsClean(pairs, st, depth);
    PairsClean(qs, st, depth);
    if PairsOut(qs, st, depth).error.None? {
      forall k | 0 <= k < |pairs| ensures ValueOut(pairs[k].val, st, depth).error.None? {
        PermutationCovers(order, |pairs|, k);
        var x :| 0 <= x < |pairs| && order[x] == k;
        assert Alike(ValueOut(pairs[order[x]].val, st, depth), ValueOut(qs[x].val, st, depth));
      }
    }
    if PairsOut(pairs, st, depth).error.None? {
      forall k | 0 <= k < |qs|
        ensures ValueOut(qs[k].val, st, depth).error.None?
          && Weight(qs[k], st, depth) == Weight(pairs[order[k]], st, depth)
      {
        assert Alike(ValueOut(pairs[order[k]].val, st, depth), ValueOut(qs[k].val, st, depth));
        SameWeight(pairs[order[k]], qs[k], st, depth);
      }
      PairsSameLength(pairs, qs, order, st, depth);
    }
  }

  lemma SameWeight(p: Pair, q: Pair, st: Style, depth: nat)
    requires p.key == q.key && |ValueOut(p.val, st, depth).text| == |ValueOut(q.val, st, depth).text|
    ensures Weight(p, st, depth) == Weight(q, st, depth)
  {}

  lemma PairsSameLength(pairs: seq<Pair>, qs: seq<Pair>, order: seq<nat>, st: Style, depth: nat)
    requires IsPermutation(order, |pairs|) && |qs| == |pairs| == |order|
    requires forall k :: 0 <= k < |order| ==> order[k] < |pairs|
    requires forall k :: 0 <= k < |pairs| ==> ValueOut(pairs[k].val, st, depth).error.None?
    requires forall k :: 0 <= k < |qs| ==>
      ValueOut(qs[k].val, st, depth).error.None? && Weight(qs[k], st, depth) == Weight(pairs[order[k]], st, depth)
    ensures |PairsOut(pairs, st, depth).text| == |PairsOut(qs, st, depth).text|
  {
    hide ValueOut, IsPermutation, PairsOut, Weight, Sum;
    var f := (k: nat) => if k < |pairs| then Weight(pairs[k], st, depth) else 0;
    PairsMeasure(qs, f, order, st, depth);
    PairsMeasure(pairs, f, Identity(|pairs|), st, depth);
    SamePermutation(order, |pairs|);
    SumSame(f, order, Identity(|pairs|));
  }

  lemma SamePermutation(order: seq<nat>, n: nat)
    requires IsPermutation(order, n)
    ensures multiset(order) == multiset(Identity(n))
  {}

  /** Sorting members changes neither whether a value can be written nor the length of its text. */
  lemma {:induction false} SameLength(t: Json, u: Json, sort: bool, st: Style, depth: nat)
    requires Arranges(t, u, sort)
    ensures Alike(ValueOut(t, st, depth), ValueOut(u, st, depth))
    decreases t
  {
    if depth < st.maxDepth {
      match t
      case Arr(items) =>
        forall k | 0 <= k < |items|
          ensures Alike(ValueOut(items[k], st, depth + 1), ValueOut(u.items[k], st, depth + 1))
        {
          SameLength(items[k], u.items[k], sort, st, depth + 1);
        }
        ItemsAlike(items, u.items, st, depth + 1);
      case Obj(pairs) =>
        var order :| ArrangesBy(pairs, u.pairs, order, sort);
        forall k | 0 <= k < |u.pairs|
          ensures order[k] < |pairs| && u.pairs[k].key == pairs[order[k]].key
          ensures Alike(ValueOut(pairs[order[k]].val, st, depth + 1), ValueOut(u.pairs[k].val, st, depth + 1))
        {
          assert ArrangedPair(pairs, u.pairs[k], order[k], sort);
          SameLength(pairs[order[k]].val, u.pairs[k].val, sort, st, depth + 1);
        }
        PairsAlike(pairs, u.pairs, order, st, depth + 1);
      case _ =>
    }
  }

  /** Unsorted writing keeps the order. */
  lemma {:induction false} UnsortedIsSame(t: Json, u: Json)
    requires Arranges(t, u, false)
    ensures u == t
    decreases t
  {
    match t
    case Arr(items) =>
      forall k | 0 <= k < |items| ensures u.items[k] == items[k] { UnsortedIsSame(items[k], u.items[k]); }
      assert u.items == items;
    case Obj(pairs) =>
      var order :| ArrangesBy(pairs, u.pairs, order, false);
      forall k | 0 <= k < |pairs| ensures u.pairs[k] == pairs[k] {
        assert ArrangedPair(pairs, u.pairs[k], order[k], false);
        UnsortedIsSame(pairs[k].val, u.pairs[k].val);
      }
      assert u.pairs == pairs;
    case _ =>
  }

  /** Measuring skips the key sort, and still tells the length and the outcome of every sorted write. */
  lemma SameDocument(t: Json, u: Json, sort: bool, st: Style)
    requires Arranges(t, u, sort)
    ensures Alike(DocumentOut(t, st), DocumentOut(u, st))
  {
    SameLength(t, u, sort, st, 0);
    hide ValueOut;
  }

  /** json_measure. */
  method MeasureText(v: Json, st: Style) returns (status: Option<Error>, size: nat)
    requires Proper(v)
    ensures |DocumentOut(v, st).text| <= SIZE_MAX ==>
      status == DocumentOut(v, st).error && size == |DocumentOut(v, st).text|
  {
    hide DocumentOut, Arranges;
    ghost var u;
    status, size, u := Write(v, null, 0, st);
    UnsortedIsSame(v, u);
  }

  /**
    * json_write_arena: measure, allocate one byte more, write. What is allocated is exactly what is
    * written, for all options; `granted` says whether the arena has the memory.
    */
  method WriteArena(v: Json, st: Style, granted: bool)
    returns (status: Option<Error>, out: array?<byte>, len: nat, ghost u: Json)
    requires Proper(v)
    ensures var r := DocumentOut(v, st); |r.text| < PTRDIFF_MAX ==>
      && (r.error.Some? ==> status == r.error && out == null)
      && (r.error.None? && !granted ==> status == Some(Oom) && out == null)
      && (r.error.None? && granted ==>
            && status.None? && out != null && fresh(out)
            && len == |r.text| && out.Length == len + 1 && out[len] == 0
            && Arranges(v, u, st.opts.sortKeys) && out[..len] == DocumentOut(u, st).text)
  {
    hide DocumentOut, Arranges, Proper;
    var needed: nat;
    out, len, u := null, 0, v;
    status, needed := MeasureText(v, st);
    if status.Some? { return; }
    if needed == SIZE_MAX { return Some(Overflow), null, 0, v; }
    if !granted || needed + 1 > PTRDIFF_MAX { return Some(Oom), null, 0, v; }
    var buf := new byte[needed + 1];
    status, len, u := Write(v, buf, needed + 1, st);
    SameDocument(v, u, st.opts.sortKeys, st);
    if status.None? { out := buf; }
  }
}
