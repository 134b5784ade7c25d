/** Arrangements of object members exist, and the output of a container grows with its elements. */
module Arrangement {
  import opened Tree
  import opened KeyOrder
  import opened Sort
  import opened Objects
  import opened WriterSpec

  // ---------- arrangements exist ----------

  /** Every order of keys has a sorted permutation. */
  lemma {:induction false} SortedOrder(ctx: Ctx, n: nat) returns (order: seq<nat>)
    ensures IsPermutation(order, n) && Sorted(ctx, order, 0, n)
  {
    order := [];
    if n > 0 {
      var o := SortedOrder(ctx, n - 1);
      var p := Place(ctx, o, n - 1);
      order := o[..p] + [n - 1] + o[p..];
      assert o == o[..p] + o[p..];
      assert Identity(n) == Identity(n - 1) + [n - 1];
    }
  }

  /** Where an entry can be inserted. */
  lemma {:induction false} Place(ctx: Ctx, o: seq<nat>, e: nat) returns (p: nat)
    requires Sorted(ctx, o, 0, |o|)
    ensures p <= |o| && Sorted(ctx, o[..p] + [e] + o[p..], 0, |o| + 1)
  {
    p := 0;
    LeOrder(ctx);
    while p < |o| && Le(ctx, o[p], e)
      invariant p <= |o| && forall x :: 0 <= x < p ==> Le(ctx, o[x], e)
    {
      p := p + 1;
    }
    hide Le, Cmp;
    var s := o[..p] + [e] + o[p..];
    forall x, y | 0 <= x < y < |s| ensures Le(ctx, s[x], s[y]) {
      if y < p { assert Le(ctx, o[x], o[y]); }
      else if x > p { assert Le(ctx, o[x - 1], o[y - 1]); }
      else if y > p + 1 { assert Le(ctx, o[p], o[y - 1]); }
    }
  }

  lemma InRange(order: seq<nat>, n: nat)
    requires IsPermutation(order, n)
    ensures forall k :: 0 <= k < n ==> order[k] < n
  {
    forall k | 0 <= k < n ensures order[k] < n { PermutationInRange(order, n, k); }
  }

  /** Every object has a writing order. */
  lemma SomeOrder(pairs: seq<Pair>, sort: bool) returns (order: seq<nat>)
    ensures WriteOrder(pairs, order, sort)
  {
    order := Identity(|pairs|);
    if sort { order := SortedOrder(LexCtx(pairs), |pairs|); }
    InRange(order, |pairs|);
  }

  /** Every value has an arrangement. */
  lemma {:induction false} Arrange(t: Json, sort: bool) returns (u: Json)
    ensures Arranges(t, u, sort)
    decreases t, 0
  {
    match t
    case Arr(items) =>
      var all := FinishItems(items, [], sort);
      u := Arr(all);
    case Obj(pairs) =>
      var order := SomeOrder(pairs, sort);
      var all := FinishPairs(pairs, order, [], sort);
      u := Obj(all);
    case _ => u := t;
  }

  // ---------- the order of written keys ----------

  /** In every object of the value, no key comes before an earlier one. */
  ghost predicate KeysAscend(u: Json)
    decreases u
  {
    match u
    case Arr(items) => forall k :: 0 <= k < |items| ==> KeysAscend(items[k])
    case Obj(pairs) =>
      (forall x, y :: 0 <= x < y < |pairs| ==> !Before(pairs[y].key, pairs[x].key))
      && forall k :: 0 <= k < |pairs| ==> PairAscends(pairs[k])
    case _ => true
  }

  ghost predicate PairAscends(p: Pair)
    decreases p
  {
    KeysAscend(p.val)
  }

  /** The lexical order of pair numbers is the order of their keys by places. */
  lemma SortedByPlaces(pairs: seq<Pair>, order: seq<nat>)
    requires WriteOrder(pairs, order, true)
    ensures forall x, y :: 0 <= x < y < |order| ==> !Before(pairs[order[y]].key, pairs[order[x]].key)
  {
    forall x, y | 0 <= x < y < |order| ensures !Before(pairs[order[y]].key, pairs[order[x]].key) {
      assert Le(LexCtx(pairs), order[x], order[y]);
      CompareIsBefore(pairs[order[y]].key, pairs[order[x]].key);
      CompareBytesFlip(pairs[order[x]].key, pairs[order[y]].key);
    }
  }

  /** Under sort_keys the members of every object are written in ascending order of their key bytes. */
  lemma {:induction false} SortedKeysAscend(t: Json, u: Json)
    requires Arranges(t, u, true)
    ensures KeysAscend(u)
    decreases t
  {
    match t
    case Arr(items) =>
      forall k | 0 <= k < |items| ensures KeysAscend(u.items[k]) { SortedKeysAscend(items[k], u.items[k]); }
    case Obj(pairs) =>
      var order :| ArrangesBy(pairs, u.pairs, order, true);
      SortedByPlaces(pairs, order);
      assert forall k :: 0 <= k < |u.pairs| ==> ArrangedPair(pairs, u.pairs[k], order[k], true);
      forall k | 0 <= k < |u.pairs| ensures PairAscends(u.pairs[k]) {
        SortedKeysAscend(pairs[order[k]].val, u.pairs[k].val);
      }
    case _ =>
  }

  // ---------- arrangements of the first elements ----------

  /** The items `done` are arrangements of the first items. */
  ghost predicate ItemsDone(items: seq<Json>, done: seq<Json>, sort: bool) {
    |done| <= |items| && forall k :: 0 <= k < |done| ==> Arranges(items[k], done[k], sort)
  }

  lemma {:induction false} FinishItems(items: seq<Json>, done: seq<Json>, sort: bool) returns (all: seq<Json>)
    requires ItemsDone(items, done, sort)
    ensures done <= all && |all| == |items| && ItemsDone(items, all, sort)
    decreases items, |items| - |done|
  {
    all := done;
    if |done| < |items| {
      var u := Arrange(items[|done|], sort);
      all := FinishItems(items, done + [u], sort);
    }
  }

  /** The pairs `done` are arrangements of the first pairs in the given order. */
  ghost predicate PairsDone(pairs: seq<Pair>, done: seq<Pair>, order: seq<nat>, sort: bool) {
    && WriteOrder(pairs, order, sort) && |done| <= |pairs|
    && forall k :: 0 <= k < |done| ==> ArrangedPair(pairs, done[k], order[k], sort)
  }

  lemma {:induction false} FinishPairs(pairs: seq<Pair>, order: seq<nat>, done: seq<Pair>, sort: bool)
    returns (all: seq<Pair>)
    requires PairsDone(pairs, done, order, sort)
    ensures done <= all && ArrangesBy(pairs, all, order, sort)
    decreases pairs, |pairs| - |done|
  {
    all := done;
    if |done| < |pairs| {
      var p := pairs[order[|done|]];
      var u := Arrange(p.val, sort);
      all := FinishPairs(pairs, order, done + [Pair(p.key, u)], sort);
    }
  }

  // ---------- the output of a growing container ----------

  lemma ItemsSnoc(done: seq<Json>, t: Json, st: Style, depth: nat)
    ensures var n := |done|;
      ItemsOut(done + [t], st, depth)
      == Then(ItemsOut(done, st, depth), Then(Done(Sep(n) + LineBreak(st, depth)), ValueOut(t, st, depth)))
  {
    assert (done + [t])[..|done|] == done;
  }

  lemma PairsSnoc(done: seq<Pair>, p: Pair, st: Style, depth: nat)
    ensures var n := |done|;
      PairsOut(done + [p], st, depth)
      == Then(PairsOut(done, st, depth),
              Then(Done(Sep(n) + LineBreak(st, depth) + KeyText(p.key, st)), ValueOut(p.val, st, depth)))
  {
    assert (done + [p])[..|done|] == done;
  }

  /** What has been written stays; an error in it is the error of the whole. */
  predicate Starts(a: Out, b: Out) { a.text <= b.text && (a.error.Some? ==> b == a) }

  lemma StartsItself(a: Out)
    ensures Starts(a, a)
  {}

  lemma {:induction false} ItemsPrefix(done: seq<Json>, all: seq<Json>, st: Style, depth: nat)
    requires done <= all
    ensures Starts(ItemsOut(done, st, depth), ItemsOut(all, st, depth))
    decreases |all|
  {
    var n := |all| - 1;
    if |done| == |all| {
      assert done == all;
    } else {
      ItemsPrefix(done, all[..n], st, depth);
      assert all == all[..n] + [all[n]];
      ItemsSnoc(all[..n], all[n], st, depth);
    }
  }

  lemma {:induction false} PairsPrefix(done: seq<Pair>, all: seq<Pair>, st: Style, depth: nat)
    requires done <= all
    ensures Starts(PairsOut(done, st, depth), PairsOut(all, st, depth))
    decreases |all|
  {
    var n := |all| - 1;
    if |done| == |all| {
      assert done == all;
    } else {
      PairsPrefix(done, all[..n], st, depth);
      assert all == all[..n] + [all[n]];
      PairsSnoc(all[..n], all[n], st, depth);
    }
  }
}
