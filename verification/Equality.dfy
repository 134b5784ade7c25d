/** json_equal, and its agreement with the canonical text: compact output with sorted keys. */
module Equality {
  import opened Base
  import opened Fnv
  import opened Tree
  import G = Grammar
  import opened ParserExact
  import opened KeyOrder
  import opened Objects
  import opened OrderedMap
  import opened WriterSpec
  import opened Arrangement
  import opened Measure
  import opened RoundTrip

  // ---------- the code ----------

  /** json_get_float. */
  function AsDouble(t: Json, pal: Pal): Double
    requires t.Int? || t.Float?
  {
    if t.Int? then pal.ofInt(t.i) else t.f
  }

  /** json__equal, on values that are not the same node. */
  ghost predicate EqualAt(a: Json, b: Json, depth: nat, maxDepth: nat, pal: Pal)
    decreases a
  {
    depth < maxDepth &&
    match a
    case Null => b.Null?
    case Bool(x) => b == Bool(x)
    case Int(x) => if b.Float? then pal.eq(pal.ofInt(x), b.f) else b == Int(x)
    case Float(x) => (b.Float? || b.Int?) && pal.eq(x, AsDouble(b, pal))
    case Str(s) => b == Str(s)
    case Arr(items) =>
      b.Arr? && |b.items| == |items|
      && forall k :: 0 <= k < |items| ==> EqualAt(items[k], b.items[k], depth + 1, maxDepth, pal)
    case Obj(pairs) =>
      b.Obj? && |b.pairs| == |pairs| && forall k :: 0 <= k < |pairs| ==>
        HasEqual(pairs[k], b.pairs, depth + 1, maxDepth, pal)
  }

  /** The pair's key is found in `ps`, with an equal value. */
  ghost predicate HasEqual(p: Pair, ps: seq<Pair>, depth: nat, maxDepth: nat, pal: Pal)
    decreases p
  {
    Find(ps, p.key).Some? && EqualAt(p.val, Find(ps, p.key).value, depth, maxDepth, pal)
  }

  /** json__equal; the comparison of nodes by address is not part of the model. */
  method Equal(a: Json, b: Json, depth: nat, maxDepth: nat, pal: Pal) returns (r: bool)
    ensures r <==> EqualAt(a, b, depth, maxDepth, pal)
    decreases a, 1
  {
    if depth >= maxDepth { return false; }
    match (a, b)
    case (Null, Null) => return true;
    case (Bool(x), Bool(y)) => return x == y;
    case (Int(x), Int(y)) => return x == y;
    case (Float(x), Float(y)) => return pal.eq(x, y);
    case (Int(x), Float(y)) => return pal.eq(pal.ofInt(x), y);
    case (Float(x), Int(y)) => return pal.eq(x, pal.ofInt(y));
    case (Str(s), Str(t)) => return |s| == |t| && Hash(s) == Hash(t) && s == t;
    case (Arr(items), Arr(others)) => r := EqualItems(items, others, depth, maxDepth, pal);
    case (Obj(pairs), Obj(others)) => r := EqualPairs(pairs, others, depth, maxDepth, pal);
    case _ => return false;
  }

  method EqualItems(items: seq<Json>, others: seq<Json>, depth: nat, maxDepth: nat, pal: Pal) returns (r: bool)
    requires depth < maxDepth
    ensures r <==> EqualAt(Arr(items), Arr(others), depth, maxDepth, pal)
    decreases items, 0
  {
    if |items| != |others| { return false; }
    for i := 0 to |items|
      invariant forall k :: 0 <= k < i ==> EqualAt(items[k], others[k], depth + 1, maxDepth, pal)
    {
      var same := Equal(items[i], others[i], depth + 1, maxDepth, pal);
      if !same { return false; }
    }
    return true;
  }

  method EqualPairs(pairs: seq<Pair>, others: seq<Pair>, depth: nat, maxDepth: nat, pal: Pal) returns (r: bool)
    requires depth < maxDepth
    ensures r <==> EqualAt(Obj(pairs), Obj(others), depth, maxDepth, pal)
    decreases pairs, 0
  {
    if |pairs| != |others| { return false; }
    for i := 0 to |pairs|
      invariant forall k :: 0 <= k < i ==> HasEqual(pairs[k], others, depth + 1, maxDepth, pal)
    {
      var found := Find(others, pairs[i].key);
      if found.None? { return false; }
      var same := Equal(pairs[i].val, found.value, depth + 1, maxDepth, pal);
      if !same { return false; }
    }
    return true;
  }

  // ---------- canonical form ----------

  /** No doubles anywhere, and the keys of every object are different. */
  predicate Plain(t: Json)
    decreases t
  {
    match t
    case Float(_) => false
    case Arr(items) => forall k :: 0 <= k < |items| ==> Plain(items[k])
    case Obj(pairs) => UniqueKeys(pairs) && forall k :: 0 <= k < |pairs| ==> PlainPair(pairs[k])
    case _ => true
  }

  predicate PlainPair(p: Pair)
    decreases p
  {
    Plain(p.val)
  }

  /** Strictly increasing keys. */
  ghost predicate Increasing(ps: seq<Pair>) {
    forall x, y :: 0 <= x < y < |ps| ==> CompareBytes(ps[x].key, ps[y].key) < 0
  }

  /** Every key of `ps` is a key of `qs`. */
  ghost predicate KeysIn(ps: seq<Pair>, qs: seq<Pair>) {
    forall k :: 0 <= k < |ps| ==> HasKey(qs, ps[k].key)
  }

  /** Two increasing lists of keys of the same length, one contained in the other, agree place by place. */
  lemma {:induction false} SameKeys(ps: seq<Pair>, qs: seq<Pair>, k: nat)
    requires Increasing(ps) && Increasing(qs) && |ps| == |qs| && KeysIn(ps, qs)
    requires k < |ps|
    ensures ps[k].key == qs[k].key
  {
    var place := Places(ps, qs, |ps|);
    PlacesAreIdentity(place, |ps|, k);
  }

  /** Where the first `n` keys of `ps` are in `qs`: the places increase. */
  lemma {:induction false} Places(ps: seq<Pair>, qs: seq<Pair>, n: nat) returns (place: seq<nat>)
    requires Increasing(ps) && Increasing(qs) && KeysIn(ps, qs) && n <= |ps|
    ensures |place| == n && forall k :: 0 <= k < n ==> place[k] < |qs| && qs[place[k]].key == ps[k].key
    ensures forall x, y :: 0 <= x < y < n ==> place[x] < place[y]
  {
    place := [];
    if n > 0 {
      var before := Places(ps, qs, n - 1);
      assert HasKey(qs, ps[n - 1].key);
      var j :| 0 <= j < |qs| && qs[j].key == ps[n - 1].key;
      place := before + [j];
      forall x | 0 <= x < n - 1 ensures before[x] < j {
        CompareBytesFlip(ps[x].key, ps[n - 1].key);
        CompareBytesZero(ps[x].key, ps[n - 1].key);
      }
    }
  }

  /** The pigeonhole: an increasing map of 0..n-1 into itself is the identity. */
  lemma {:induction false} PlacesAreIdentity(place: seq<nat>, n: nat, k: nat)
    requires |place| == n && (forall x :: 0 <= x < n ==> place[x] < n)
    requires forall x, y :: 0 <= x < y < n ==> place[x] < place[y]
    requires k < n
    ensures place[k] == k
  {
    AtLeast(place, k);
    AtMost(place, n, k);
  }

  lemma {:induction false} AtLeast(place: seq<nat>, k: nat)
    requires k < |place| && forall x, y :: 0 <= x < y < |place| ==> place[x] < place[y]
    ensures place[k] >= k
  {
    if k > 0 { AtLeast(place, k - 1); }
  }

  lemma {:induction false} AtMost(place: seq<nat>, n: nat, k: nat)
    requires k < |place| == n && (forall x :: 0 <= x < n ==> place[x] < n)
    requires forall x, y :: 0 <= x < y < n ==> place[x] < place[y]
    ensures place[k] <= k
    decreases n - k
  {
    if k + 1 < n { AtMost(place, n, k + 1); }
  }

  /** Sorting an object with unique keys lists them in strictly increasing order. */
  lemma SortedIncreasing(pairs: seq<Pair>, qs: seq<Pair>, order: seq<nat>)
    requires ArrangesBy(pairs, qs, order, true) && UniqueKeys(pairs)
    ensures Increasing(qs) && UniqueKeys(qs)
  {
    forall x, y | 0 <= x < y < |qs| ensures CompareBytes(qs[x].key, qs[y].key) < 0 && qs[x].key != qs[y].key {
      assert ArrangedPair(pairs, qs[x], order[x], true) && ArrangedPair(pairs, qs[y], order[y], true);
      assert Le(LexCtx(pairs), order[x], order[y]);
      PermutationInjective(order, |pairs|, x, y);
      CompareBytesZero(qs[x].key, qs[y].key);
    }
  }

  lemma PermutationInjective(order: seq<nat>, n: nat, x: nat, y: nat)
    requires IsPermutation(order, n) && x < y < n
    ensures order[x] != order[y]
  {
    PermutationInRange(order, n, x);
    OnceInIdentity(n, order[x]);
    TwiceIn(order, x, y);
  }

  lemma OnceInIdentity(n: nat, v: nat)
    requires v < n
    ensures multiset(Identity(n))[v] == 1
  {
    var id := Identity(n);
    assert id == id[..v] + [v] + id[v + 1..];
    assert v !in id[..v] && v !in id[v + 1..];
  }

  lemma TwiceIn(s: seq<nat>, x: nat, y: nat)
    requires x < y < |s|
    ensures s[x] == s[y] ==> multiset(s)[s[x]] >= 2
  {
    assert s == s[..x] + [s[x]] + s[x + 1..y] + [s[y]] + s[y + 1..];
  }

  /** Equal values have the same sorted form. */
  lemma {:induction false} EqualSameForm(a: Json, b: Json, u: Json, w: Json, depth: nat, maxDepth: nat, pal: Pal)
    requires Plain(a) && Plain(b) && Arranges(a, u, true) && Arranges(b, w, true)
    requires EqualAt(a, b, depth, maxDepth, pal)
    ensures u == w
    decreases a
  {
    match a
    case Arr(items) =>
      forall k | 0 <= k < |items| ensures u.items[k] == w.items[k] {
        EqualSameForm(items[k], b.items[k], u.items[k], w.items[k], depth + 1, maxDepth, pal);
      }
      assert u.items == w.items;
    case Obj(pairs) =>
      var oa :| ArrangesBy(pairs, u.pairs, oa, true);
      var ob :| ArrangesBy(b.pairs, w.pairs, ob, true);
      SortedIncreasing(pairs, u.pairs, oa);
      SortedIncreasing(b.pairs, w.pairs, ob);
      ArrangedKeysIn(pairs, b.pairs, u.pairs, w.pairs, oa, ob, depth + 1, maxDepth, pal);
      forall k | 0 <= k < |u.pairs| ensures u.pairs[k] == w.pairs[k] {
        SameKeys(u.pairs, w.pairs, k);
        assert ArrangedPair(pairs, u.pairs[k], oa[k], true) && ArrangedPair(b.pairs, w.pairs[k], ob[k], true);
        assert HasEqual(pairs[oa[k]], b.pairs, depth + 1, maxDepth, pal);
        FindUnique(b.pairs, w.pairs[k].key, ob[k]);
        assert PlainPair(pairs[oa[k]]) && PlainPair(b.pairs[ob[k]]);
        EqualSameForm(pairs[oa[k]].val, b.pairs[ob[k]].val, u.pairs[k].val, w.pairs[k].val, depth + 1, maxDepth, pal);
      }
      assert u.pairs == w.pairs;
    case _ =>
  }

  lemma ArrangedKeysIn(ps: seq<Pair>, qs: seq<Pair>, us: seq<Pair>, ws: seq<Pair>, oa: seq<nat>, ob: seq<nat>,
                       depth: nat, maxDepth: nat, pal: Pal)
    requires ArrangesBy(ps, us, oa, true) && ArrangesBy(qs, ws, ob, true)
    requires forall k :: 0 <= k < |ps| ==> HasEqual(ps[k], qs, depth, maxDepth, pal)
    ensures KeysIn(us, ws)
  {
    forall k | 0 <= k < |us| ensures HasKey(ws, us[k].key) {
      assert ArrangedPair(ps, us[k], oa[k], true);
      assert HasEqual(ps[oa[k]], qs, depth, maxDepth, pal);
      FindNone(qs, us[k].key);
      var j :| 0 <= j < |qs| && qs[j].key == us[k].key;
      PermutationCovers(ob, |qs|, j);
      var x :| 0 <= x < |qs| && ob[x] == j;
      assert ArrangedPair(qs, ws[x], ob[x], true);
    }
  }

  /** Values with the same sorted form are equal. */
  lemma {:induction false} SameFormEqual(a: Json, b: Json, u: Json, depth: nat, maxDepth: nat, pal: Pal)
    requires Plain(a) && Plain(b) && Arranges(a, u, true) && Arranges(b, u, true) && Shallow(a, maxDepth, depth)
    ensures EqualAt(a, b, depth, maxDepth, pal)
    decreases a
  {
    match a
    case Arr(items) =>
      forall k | 0 <= k < |items| ensures EqualAt(items[k], b.items[k], depth + 1, maxDepth, pal) {
        SameFormEqual(items[k], b.items[k], u.items[k], depth + 1, maxDepth, pal);
      }
    case Obj(pairs) =>
      var oa :| ArrangesBy(pairs, u.pairs, oa, true);
      var ob :| ArrangesBy(b.pairs, u.pairs, ob, true);
      forall j | 0 <= j < |pairs| ensures HasEqual(pairs[j], b.pairs, depth + 1, maxDepth, pal) {
        PermutationCovers(oa, |pairs|, j);
        var k :| 0 <= k < |pairs| && oa[k] == j;
        assert ArrangedPair(pairs, u.pairs[k], oa[k], true) && ArrangedPair(b.pairs, u.pairs[k], ob[k], true);
        FindUnique(b.pairs, pairs[j].key, ob[k]);
        assert PlainPair(pairs[j]) && PlainPair(b.pairs[ob[k]]) && ShallowPair(pairs[j], maxDepth, depth + 1);
        SameFormEqual(pairs[j].val, b.pairs[ob[k]].val, u.pairs[k].val, depth + 1, maxDepth, pal);
      }
    case _ =>
  }

  /** The options of the canonical text: compact, with sorted keys; escaping is free. */
  predicate Canonical(st: Style) { !st.opts.pretty && st.opts.sortKeys }

  /** What the canonical form is claimed for: no doubles, unique keys, valid strings, and depth under the limit. */
  ghost predicate Eligible(t: Json, st: Style) {
    Plain(t) && Proper(t) && Readable(t, st.pal) && Shallow(t, st.maxDepth, 0)
  }

  /** The text identifies the written form. */
  lemma SameTextSameForm(a: Json, b: Json, u: Json, w: Json, st: Style)
    requires Eligible(a, st) && Eligible(b, st) && Arranges(a, u, true) && Arranges(b, w, true)
    ensures DocumentOut(u, st).error.None? && DocumentOut(w, st).error.None?
    ensures DocumentOut(u, st).text == DocumentOut(w, st).text <==> u == w
  {
    Complete(a, u, st);
    Complete(b, w, st);
    hide *;
    if DocumentOut(u, st).text == DocumentOut(w, st).text {
      Unambiguous(DocumentOut(u, st).text, u, w, st.pal);
    }
  }

  lemma Complete(t: Json, u: Json, st: Style)
    requires Eligible(t, st) && Arranges(t, u, true)
    ensures DocumentOut(u, st).error.None? && G.Derives(DocumentOut(u, st).text, u, st.pal)
  {
    WritableIff(t, st, 0);
    SameLength(t, u, true, st, 0);
    SameQuality(t, u, true, st.pal);
    hide ValueOut, Readable, Proper, G.Derives;
    var d := WrittenTextDerives(u, st);
    DerivedBy(d, u, st);
  }

  /**
    * Canonical form: two values are equal for json_equal exactly when their compact outputs with
    * sorted keys are the same bytes.
    */
  lemma EqualIffSameText(a: Json, b: Json, u: Json, w: Json, st: Style)
    requires Canonical(st) && Eligible(a, st) && Eligible(b, st)
    requires Arranges(a, u, st.opts.sortKeys) && Arranges(b, w, st.opts.sortKeys)
    ensures EqualAt(a, b, 0, st.maxDepth, st.pal) <==> DocumentOut(u, st).text == DocumentOut(w, st).text
  {
    SameTextSameForm(a, b, u, w, st);
    EqualIffSameForm(a, b, u, w, st);
  }

  lemma EqualIffSameForm(a: Json, b: Json, u: Json, w: Json, st: Style)
    requires Eligible(a, st) && Eligible(b, st) && Arranges(a, u, true) && Arranges(b, w, true)
    ensures EqualAt(a, b, 0, st.maxDepth, st.pal) <==> u == w
  {
    hide EqualAt, Arranges, Plain, Shallow, Proper, Readable;
    if EqualAt(a, b, 0, st.maxDepth, st.pal) {
      EqualSameForm(a, b, u, w, 0, st.maxDepth, st.pal);
    }
    if u == w {
      SameFormEqual(a, b, u, 0, st.maxDepth, st.pal);
    }
  }
}
