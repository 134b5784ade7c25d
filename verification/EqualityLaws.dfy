/** The laws of json_equal: when it is reflexive, symmetric and transitive, without doubles and with them. */
module EqualityLaws {
  import opened Base
  import opened Tree
  import opened OrderedMap
  import opened RoundTrip
  import opened Equality
  import opened KeySets

  // ---------- hypotheses ----------

  /** No object repeats a key, at any level. */
  predicate Distinct(t: Json)
    decreases t
  {
    match t
    case Arr(items) => forall k :: 0 <= k < |items| ==> Distinct(items[k])
    case Obj(pairs) => UniqueKeys(pairs) && forall k :: 0 <= k < |pairs| ==> DistinctPair(pairs[k])
    case _ => true
  }

  predicate DistinctPair(p: Pair)
    decreases p
  {
    Distinct(p.val)
  }

  lemma {:induction false} PlainIff(t: Json)
    ensures Plain(t) <==> NoFloat(t) && Distinct(t)
    decreases t
  {
    match t
    case Arr(items) =>
      forall k | 0 <= k < |items| ensures Plain(items[k]) <==> NoFloat(items[k]) && Distinct(items[k]) {
        PlainIff(items[k]);
      }
    case Obj(pairs) =>
      forall k | 0 <= k < |pairs|
        ensures PlainPair(pairs[k]) <==> NoFloatPair(pairs[k]) && DistinctPair(pairs[k])
      {
        PlainIff(pairs[k].val);
      }
    case _ =>
  }

  /** The comparison of doubles is reflexive (there is no NaN), symmetric, transitive. */
  ghost predicate EqReflexive(pal: Pal) { forall x :: pal.eq(x, x) }
  ghost predicate EqSymmetric(pal: Pal) { forall x, y :: pal.eq(x, y) ==> pal.eq(y, x) }
  ghost predicate EqTransitive(pal: Pal) { forall x, y, z :: pal.eq(x, y) && pal.eq(y, z) ==> pal.eq(x, z) }

  /** Different 64-bit integers convert to different doubles. (Beyond 2^53 the conversion of C does not do so.) */
  ghost predicate ExactInts(pal: Pal) {
    forall x, y :: IsInt64(x) && IsInt64(y) && pal.eq(pal.ofInt(x), pal.ofInt(y)) ==> x == y
  }

  predicate IsInt64(x: int) { INT64_MIN <= x <= INT64_MAX }

  /** Every integer in the value has 64 bits. */
  predicate Ints64(t: Json)
    decreases t
  {
    match t
    case Int(x) => IsInt64(x)
    case Arr(items) => forall k :: 0 <= k < |items| ==> Ints64(items[k])
    case Obj(pairs) => forall k :: 0 <= k < |pairs| ==> Ints64Pair(pairs[k])
    case _ => true
  }

  predicate Ints64Pair(p: Pair)
    decreases p
  {
    Ints64(p.val)
  }

  // ---------- symmetry ----------

  /** A value without repeated keys equals only values without repeated keys, and they equal it. */
  lemma {:induction false} EqualReverses(a: Json, b: Json, depth: nat, maxDepth: nat, pal: Pal)
    requires Distinct(a) && EqualAt(a, b, depth, maxDepth, pal)
    requires EqSymmetric(pal) || (NoFloat(a) && NoFloat(b))
    ensures Distinct(b) && EqualAt(b, a, depth, maxDepth, pal)
    decreases a
  {
    match a
    case Arr(items) =>
      forall k | 0 <= k < |items|
        ensures Distinct(b.items[k]) && EqualAt(b.items[k], items[k], depth + 1, maxDepth, pal)
      {
        EqualReverses(items[k], b.items[k], depth + 1, maxDepth, pal);
      }
    case Obj(pairs) =>
      assert forall k :: 0 <= k < |pairs| ==> HasEqual(pairs[k], b.pairs, depth + 1, maxDepth, pal);
      SameKeySet(pairs, b.pairs);
      forall j | 0 <= j < |b.pairs|
        ensures DistinctPair(b.pairs[j]) && HasEqual(b.pairs[j], pairs, depth + 1, maxDepth, pal)
      {
        assert HasKey(pairs, b.pairs[j].key);
        var k :| 0 <= k < |pairs| && pairs[k].key == b.pairs[j].key;
        FindUnique(pairs, b.pairs[j].key, k);
        FindUnique(b.pairs, b.pairs[j].key, j);
        assert HasEqual(pairs[k], b.pairs, depth + 1, maxDepth, pal);
        assert DistinctPair(pairs[k]);
        assert NoFloat(a) && NoFloat(b) ==> NoFloatPair(pairs[k]) && NoFloatPair(b.pairs[j]);
        EqualReverses(pairs[k].val, b.pairs[j].val, depth + 1, maxDepth, pal);
      }
    case _ =>
  }

  /** A key that none of the pairs has. */
  lemma {:induction false} FreshKey(ps: seq<Pair>) returns (key: bytes)
    ensures key != [] && forall k :: 0 <= k < |ps| ==> |ps[k].key| < |key|
    decreases |ps|
  {
    key := [0x6B];
    if ps != [] {
      var n := |ps| - 1;
      var shorter := FreshKey(ps[..n]);
      key := shorter + ps[n].key;
      forall k | 0 <= k < |ps| ensures |ps[k].key| < |key| {
        if k < n { assert ps[..n][k] == ps[k]; }
      }
    }
  }

  /** What a value is compared with for a key, and a pair that is never looked up in place of pair number j. */
  function Answers(ps: seq<Pair>, qs: seq<Pair>, j: nat, key: bytes): (r: seq<Pair>)
    requires forall k :: 0 <= k < |ps| ==> Find(qs, ps[k].key).Some?
    ensures |r| == |ps|
  {
    seq(|ps|, k requires 0 <= k < |ps| =>
      if k == j then Pair(key, Null) else Pair(ps[k].key, Find(qs, ps[k].key).value))
  }

  /** With a key repeated at i and j, the answers without pair j are still complete. */
  lemma AnswersFind(ps: seq<Pair>, qs: seq<Pair>, i: nat, j: nat, key: bytes, k: nat)
    requires forall k :: 0 <= k < |ps| ==> Find(qs, ps[k].key).Some?
    requires i < j < |ps| && ps[i].key == ps[j].key && (forall k :: 0 <= k < |ps| ==> ps[k].key != key) && k < |ps|
    ensures Find(Answers(ps, qs, j, key), ps[k].key) == Find(qs, ps[k].key)
  {
    var bs := Answers(ps, qs, j, key);
    FindNone(bs, ps[k].key);
    assert bs[if k == j then i else k].key == ps[k].key;
    var f := FirstIndex(bs, ps[k].key);
    FindAt(bs, ps[k].key, f);
  }

  lemma FindNoFloat(qs: seq<Pair>, key: bytes)
    requires NoFloat(Obj(qs)) && Find(qs, key).Some?
    ensures NoFloat(Find(qs, key).value)
  {
    var f := FirstIndex(qs, key);
    FindAt(qs, key, f);
    assert NoFloatPair(qs[f]);
  }

  /** An object that repeats a key equals an object that does not equal it. */
  lemma RepeatedKeyBreaks(ps: seq<Pair>, qs: seq<Pair>, depth: nat, maxDepth: nat, pal: Pal) returns (b: Json)
    requires !UniqueKeys(ps) && EqualAt(Obj(ps), Obj(qs), depth, maxDepth, pal)
    ensures NoFloat(Obj(qs)) ==> NoFloat(b)
    ensures EqualAt(Obj(ps), b, depth, maxDepth, pal) && !EqualAt(b, Obj(ps), depth, maxDepth, pal)
  {
    var i, j :| 0 <= i < j < |ps| && ps[i].key == ps[j].key;
    var key := FreshKey(ps);
    assert forall k :: 0 <= k < |ps| ==> HasEqual(ps[k], qs, depth + 1, maxDepth, pal);
    var bs := Answers(ps, qs, j, key);
    b := Obj(bs);
    forall k | 0 <= k < |ps| ensures HasEqual(ps[k], bs, depth + 1, maxDepth, pal) {
      AnswersFind(ps, qs, i, j, key, k);
    }
    if NoFloat(Obj(qs)) {
      forall k | 0 <= k < |ps| ensures NoFloatPair(bs[k]) { FindNoFloat(qs, ps[k].key); }
    }
    FindNone(ps, key);
    assert !HasEqual(bs[j], ps, depth + 1, maxDepth, pal);
  }

  /** A value that repeats a key somewhere, and equals anything at all, equals a value that does not equal it. */
  lemma {:induction false} RepetitionBreaksSymmetry(a: Json, b0: Json, depth: nat, maxDepth: nat, pal: Pal)
    returns (b: Json)
    requires EqualAt(a, b0, depth, maxDepth, pal) && !Distinct(a)
    ensures NoFloat(b0) ==> NoFloat(b)
    ensures EqualAt(a, b, depth, maxDepth, pal) && !EqualAt(b, a, depth, maxDepth, pal)
    decreases a
  {
    match a
    case Arr(items) =>
      var k :| 0 <= k < |items| && !Distinct(items[k]);
      var c := RepetitionBreaksSymmetry(items[k], b0.items[k], depth + 1, maxDepth, pal);
      b := Arr(b0.items[k := c]);
      assert !EqualAt(b.items[k], items[k], depth + 1, maxDepth, pal);
    case Obj(pairs) =>
      if !UniqueKeys(pairs) {
        b := RepeatedKeyBreaks(pairs, b0.pairs, depth, maxDepth, pal);
      } else {
        var k :| 0 <= k < |pairs| && !DistinctPair(pairs[k]);
        var key := pairs[k].key;
        assert HasEqual(pairs[k], b0.pairs, depth + 1, maxDepth, pal);
        if NoFloat(b0) { FindNoFloat(b0.pairs, key); }
        var c := RepetitionBreaksSymmetry(pairs[k].val, Find(b0.pairs, key).value, depth + 1, maxDepth, pal);
        b := ChildBreaks(pairs, b0.pairs, k, c, depth, maxDepth, pal);
      }
  }

  /** The failure in a member carries over to the object. */
  lemma ChildBreaks(ps: seq<Pair>, qs: seq<Pair>, k: nat, c: Json, depth: nat, maxDepth: nat, pal: Pal)
    returns (b: Json)
    requires UniqueKeys(ps) && EqualAt(Obj(ps), Obj(qs), depth, maxDepth, pal)
    requires k < |ps| && EqualAt(ps[k].val, c, depth + 1, maxDepth, pal)
    requires !EqualAt(c, ps[k].val, depth + 1, maxDepth, pal)
    ensures NoFloat(Obj(qs)) && NoFloat(c) ==> NoFloat(b)
    ensures EqualAt(Obj(ps), b, depth, maxDepth, pal) && !EqualAt(b, Obj(ps), depth, maxDepth, pal)
  {
    var key := ps[k].key;
    assert HasEqual(ps[k], qs, depth + 1, maxDepth, pal);
    var f := FirstIndex(qs, key);
    PutAt(qs, key, c, f);
    var bs := qs[f := Pair(key, c)];
    b := Obj(bs);
    if NoFloat(Obj(qs)) && NoFloat(c) {
      forall i | 0 <= i < |qs| ensures NoFloatPair(bs[i]) { assert NoFloatPair(qs[i]); }
    }
    forall i | 0 <= i < |ps| ensures HasEqual(ps[i], bs, depth + 1, maxDepth, pal) {
      assert HasEqual(ps[i], qs, depth + 1, maxDepth, pal);
      FindPut(qs, key, c, ps[i].key);
    }
    FindUnique(ps, key, k);
    assert !HasEqual(bs[f], ps, depth + 1, maxDepth, pal);
  }

  /**
    * The exact condition for symmetry: a value without doubles that equals some such value is equalled
    * back by every one that it equals, if and only if no object in it repeats a key.
    */
  lemma SymmetricIffUniqueKeys(a: Json, b0: Json, depth: nat, maxDepth: nat, pal: Pal)
    requires NoFloat(a) && NoFloat(b0) && EqualAt(a, b0, depth, maxDepth, pal)
    ensures Distinct(a) <==>
      forall b :: NoFloat(b) && EqualAt(a, b, depth, maxDepth, pal) ==> EqualAt(b, a, depth, maxDepth, pal)
  {
    hide *;
    if Distinct(a) {
      forall b | NoFloat(b) && EqualAt(a, b, depth, maxDepth, pal) ensures EqualAt(b, a, depth, maxDepth, pal) {
        EqualReverses(a, b, depth, maxDepth, pal);
      }
    } else {
      var b := RepetitionBreaksSymmetry(a, b0, depth, maxDepth, pal);
    }
  }

  /** The same with doubles, when their own comparison is symmetric. */
  lemma SymmetricIffUniqueKeysDoubles(a: Json, b0: Json, depth: nat, maxDepth: nat, pal: Pal)
    requires EqSymmetric(pal) && EqualAt(a, b0, depth, maxDepth, pal)
    ensures Distinct(a) <==>
      forall b :: EqualAt(a, b, depth, maxDepth, pal) ==> EqualAt(b, a, depth, maxDepth, pal)
  {
    hide *;
    if Distinct(a) {
      forall b | EqualAt(a, b, depth, maxDepth, pal) ensures EqualAt(b, a, depth, maxDepth, pal) {
        EqualReverses(a, b, depth, maxDepth, pal);
      }
    } else {
      var b := RepetitionBreaksSymmetry(a, b0, depth, maxDepth, pal);
    }
  }

  // ---------- reflexivity and transitivity ----------

  /** A value without repeated keys equals itself exactly when every level of it is below the depth limit. */
  lemma {:induction false} ReflexiveIff(a: Json, depth: nat, maxDepth: nat, pal: Pal)
    requires Distinct(a) && (EqReflexive(pal) || NoFloat(a))
    ensures EqualAt(a, a, depth, maxDepth, pal) <==> Shallow(a, maxDepth, depth)
    decreases a
  {
    match a
    case Arr(items) =>
      forall k | 0 <= k < |items|
        ensures EqualAt(items[k], items[k], depth + 1, maxDepth, pal) <==> Shallow(items[k], maxDepth, depth + 1)
      {
        ReflexiveIff(items[k], depth + 1, maxDepth, pal);
      }
    case Obj(pairs) =>
      forall k | 0 <= k < |pairs|
        ensures HasEqual(pairs[k], pairs, depth + 1, maxDepth, pal) <==> ShallowPair(pairs[k], maxDepth, depth + 1)
      {
        FindUnique(pairs, pairs[k].key, k);
        assert DistinctPair(pairs[k]) && (NoFloat(a) ==> NoFloatPair(pairs[k]));
        ReflexiveIff(pairs[k].val, depth + 1, maxDepth, pal);
      }
    case _ =>
  }

  /** Transitivity needs no unique keys; with doubles it needs an exact conversion of integers. */
  lemma {:induction false} EqualTransitive(a: Json, b: Json, c: Json, depth: nat, maxDepth: nat, pal: Pal)
    requires EqualAt(a, b, depth, maxDepth, pal) && EqualAt(b, c, depth, maxDepth, pal)
    requires || (NoFloat(a) && NoFloat(b) && NoFloat(c))
             || (EqTransitive(pal) && ExactInts(pal) && Ints64(a) && Ints64(c))
    ensures EqualAt(a, c, depth, maxDepth, pal)
    decreases a
  {
    match a
    case Arr(items) =>
      forall k | 0 <= k < |items| ensures EqualAt(items[k], c.items[k], depth + 1, maxDepth, pal) {
        EqualTransitive(items[k], b.items[k], c.items[k], depth + 1, maxDepth, pal);
      }
    case Obj(pairs) =>
      forall k | 0 <= k < |pairs| ensures HasEqual(pairs[k], c.pairs, depth + 1, maxDepth, pal) {
        var key := pairs[k].key;
        assert HasEqual(pairs[k], b.pairs, depth + 1, maxDepth, pal);
        var f := FirstIndex(b.pairs, key);
        FindAt(b.pairs, key, f);
        assert HasEqual(b.pairs[f], c.pairs, depth + 1, maxDepth, pal);
        var g := FirstIndex(c.pairs, key);
        FindAt(c.pairs, key, g);
        assert NoFloat(a) && NoFloat(b) && NoFloat(c) ==>
          NoFloatPair(pairs[k]) && NoFloatPair(b.pairs[f]) && NoFloatPair(c.pairs[g]);
        assert Ints64(a) && Ints64(c) ==> Ints64Pair(pairs[k]) && Ints64Pair(c.pairs[g]);
        EqualTransitive(pairs[k].val, b.pairs[f].val, c.pairs[g].val, depth + 1, maxDepth, pal);
      }
    case _ =>
  }

  /**
    * The exact condition for transitivity with doubles: it holds of all values with 64-bit integers if
    * and only if no two of these integers convert to equal doubles.
    */
  lemma TransitiveIffExactInts(depth: nat, maxDepth: nat, pal: Pal)
    requires depth < maxDepth && EqReflexive(pal) && EqTransitive(pal)
    ensures ExactInts(pal) <==>
      forall a, b, c ::
        Ints64(a) && Ints64(c) && EqualAt(a, b, depth, maxDepth, pal) && EqualAt(b, c, depth, maxDepth, pal)
        ==> EqualAt(a, c, depth, maxDepth, pal)
  {
    if ExactInts(pal) {
      hide *;
      forall a, b, c |
        Ints64(a) && Ints64(c) && EqualAt(a, b, depth, maxDepth, pal) && EqualAt(b, c, depth, maxDepth, pal)
        ensures EqualAt(a, c, depth, maxDepth, pal)
      {
        EqualTransitive(a, b, c, depth, maxDepth, pal);
      }
    } else {
      var x, y :| IsInt64(x) && IsInt64(y) && pal.eq(pal.ofInt(x), pal.ofInt(y)) && x != y;
      assert EqualAt(Int(x), Float(pal.ofInt(x)), depth, maxDepth, pal);
      assert EqualAt(Float(pal.ofInt(x)), Int(y), depth, maxDepth, pal);
      assert Ints64(Int(x)) && Ints64(Int(y)) && !EqualAt(Int(x), Int(y), depth, maxDepth, pal);
    }
  }

  /**
    * Hence json_equal is an equivalence relation on values with unique keys, no doubles and depth
    * under the limit, although it looks up keys one way only.
    */
  lemma EqualIsEquivalence(a: Json, b: Json, c: Json, maxDepth: nat, pal: Pal)
    requires Plain(a) && NoFloat(b) && NoFloat(c)
    ensures EqualAt(a, a, 0, maxDepth, pal) <==> Shallow(a, maxDepth, 0)
    ensures EqualAt(a, b, 0, maxDepth, pal) ==> Plain(b) && EqualAt(b, a, 0, maxDepth, pal)
    ensures EqualAt(a, b, 0, maxDepth, pal) && EqualAt(b, c, 0, maxDepth, pal) ==> EqualAt(a, c, 0, maxDepth, pal)
  {
    hide *;
    PlainIff(a);
    PlainIff(b);
    ReflexiveIff(a, 0, maxDepth, pal);
    if EqualAt(a, b, 0, maxDepth, pal) {
      EqualReverses(a, b, 0, maxDepth, pal);
      if EqualAt(b, c, 0, maxDepth, pal) { EqualTransitive(a, b, c, 0, maxDepth, pal); }
    }
  }

  // ---------- integers and doubles ----------

  /** `c` is `a` with integers turned into doubles, in places where `b` holds a double. */
  ghost predicate ConvertsFirst(a: Json, c: Json, b: Json, pal: Pal)
    decreases a
  {
    || c == a
    || (a.Int? && b.Float? && c == Float(pal.ofInt(a.i)))
    || (a.Arr? && b.Arr? && c.Arr? && |a.items| == |b.items| == |c.items|
        && forall k :: 0 <= k < |a.items| ==> ConvertsFirst(a.items[k], c.items[k], b.items[k], pal))
    || (a.Obj? && b.Obj? && c.Obj? && |a.pairs| == |c.pairs|
        && forall k :: 0 <= k < |a.pairs| ==> ConvertsMember(a.pairs[k], c.pairs[k], b.pairs, pal))
  }

  ghost predicate ConvertsMember(p: Pair, q: Pair, bs: seq<Pair>, pal: Pal)
    decreases p
  {
    q.key == p.key && (Find(bs, p.key).Some? ==> ConvertsFirst(p.val, q.val, Find(bs, p.key).value, pal))
  }

  /** An integer compares with a double as its own conversion does: first argument. */
  lemma {:induction false} IntegersCompareAsDoubles(a: Json, c: Json, b: Json, depth: nat, maxDepth: nat, pal: Pal)
    requires ConvertsFirst(a, c, b, pal)
    ensures EqualAt(a, b, depth, maxDepth, pal) <==> EqualAt(c, b, depth, maxDepth, pal)
    decreases a
  {
    if c != a {
      match a
      case Arr(items) =>
        forall k | 0 <= k < |items|
          ensures EqualAt(items[k], b.items[k], depth + 1, maxDepth, pal)
            <==> EqualAt(c.items[k], b.items[k], depth + 1, maxDepth, pal)
        {
          IntegersCompareAsDoubles(items[k], c.items[k], b.items[k], depth + 1, maxDepth, pal);
        }
      case Obj(pairs) =>
        forall k | 0 <= k < |pairs|
          ensures HasEqual(pairs[k], b.pairs, depth + 1, maxDepth, pal)
            <==> HasEqual(c.pairs[k], b.pairs, depth + 1, maxDepth, pal)
        {
          assert ConvertsMember(pairs[k], c.pairs[k], b.pairs, pal);
          var found := Find(b.pairs, pairs[k].key);
          if found.Some? {
            IntegersCompareAsDoubles(pairs[k].val, c.pairs[k].val, found.value, depth + 1, maxDepth, pal);
          }
        }
      case _ =>
    }
  }

  /** `c` is `b` with integers turned into doubles, in places where `a` holds a double. */
  ghost predicate ConvertsSecond(a: Json, b: Json, c: Json, pal: Pal)
    decreases a
  {
    || c == b
    || (b.Int? && a.Float? && c == Float(pal.ofInt(b.i)))
    || (a.Arr? && b.Arr? && c.Arr? && |a.items| == |b.items| == |c.items|
        && forall k :: 0 <= k < |a.items| ==> ConvertsSecond(a.items[k], b.items[k], c.items[k], pal))
    || (a.Obj? && b.Obj? && c.Obj? && |b.pairs| == |c.pairs|
        && (forall j :: 0 <= j < |b.pairs| ==> c.pairs[j].key == b.pairs[j].key)
        && forall k, j :: 0 <= k < |a.pairs| && 0 <= j < |b.pairs| && b.pairs[j].key == a.pairs[k].key ==>
             ConvertsSecond(a.pairs[k].val, b.pairs[j].val, c.pairs[j].val, pal))
  }

  /** The same for the second argument. */
  lemma {:induction false} IntegersCompareAsDoublesSecond(
      a: Json, b: Json, c: Json, depth: nat, maxDepth: nat, pal: Pal)
    requires ConvertsSecond(a, b, c, pal)
    ensures EqualAt(a, b, depth, maxDepth, pal) <==> EqualAt(a, c, depth, maxDepth, pal)
    decreases a
  {
    if c != b {
      match a
      case Arr(items) =>
        forall k | 0 <= k < |items|
          ensures EqualAt(items[k], b.items[k], depth + 1, maxDepth, pal)
            <==> EqualAt(items[k], c.items[k], depth + 1, maxDepth, pal)
        {
          IntegersCompareAsDoublesSecond(items[k], b.items[k], c.items[k], depth + 1, maxDepth, pal);
        }
      case Obj(pairs) =>
        forall k | 0 <= k < |pairs|
          ensures HasEqual(pairs[k], b.pairs, depth + 1, maxDepth, pal)
            <==> HasEqual(pairs[k], c.pairs, depth + 1, maxDepth, pal)
        {
          FindNone(b.pairs, pairs[k].key);
          FindNone(c.pairs, pairs[k].key);
          if Find(b.pairs, pairs[k].key).Some? {
            var j := FirstIndex(b.pairs, pairs[k].key);
            FindAt(b.pairs, pairs[k].key, j);
            FindAt(c.pairs, pairs[k].key, j);
            IntegersCompareAsDoublesSecond(pairs[k].val, b.pairs[j].val, c.pairs[j].val, depth + 1, maxDepth, pal);
          }
        }
      case _ =>
    }
  }

  /** What a double equals: the doubles and the converted integers that compare equal to it, in both orders. */
  lemma DoubleEquals(f: Double, b: Json, depth: nat, maxDepth: nat, pal: Pal)
    requires depth < maxDepth
    ensures EqualAt(Float(f), b, depth, maxDepth, pal) <==>
      match b
      case Float(g) => pal.eq(f, g)
      case Int(x) => pal.eq(f, pal.ofInt(x))
      case _ => false
    ensures EqualAt(b, Float(f), depth, maxDepth, pal) <==>
      match b
      case Float(g) => pal.eq(g, f)
      case Int(x) => pal.eq(pal.ofInt(x), f)
      case _ => false
  {
    if b.Int? {
      IntegersCompareAsDoubles(b, Float(pal.ofInt(b.i)), Float(f), depth, maxDepth, pal);
      IntegersCompareAsDoublesSecond(Float(f), b, Float(pal.ofInt(b.i)), depth, maxDepth, pal);
    }
  }

  // ---------- instances ----------

  /**
    * Where 2^53 and 2^53 + 1 convert to the same double, as in C, both equal that double, in any order,
    * and they do not equal each other.
    */
  lemma RoundingBreaksTransitivity(depth: nat, maxDepth: nat, pal: Pal)
    requires depth < maxDepth && EqReflexive(pal) && pal.ofInt(9007199254740993) == pal.ofInt(9007199254740992)
    ensures var a, c := Int(9007199254740992), Int(9007199254740993);
      var b := Float(pal.ofInt(9007199254740992));
      && EqualAt(a, b, depth, maxDepth, pal) && EqualAt(b, c, depth, maxDepth, pal)
      && EqualAt(b, a, depth, maxDepth, pal) && EqualAt(c, b, depth, maxDepth, pal)
      && !EqualAt(a, c, depth, maxDepth, pal)
  {
    var f := pal.ofInt(9007199254740992);
    DoubleEquals(f, Int(9007199254740992), depth, maxDepth, pal);
    DoubleEquals(f, Int(9007199254740993), depth, maxDepth, pal);
  }

  /** An instance, at every depth limit that admits a member: {"k":1,"k":1} equals {"k":1,"j":2}, not conversely. */
  lemma DuplicateKeysBreakSymmetry(depth: nat, maxDepth: nat, pal: Pal)
    requires depth + 1 < maxDepth
    ensures var a := Obj([Pair([0x6B], Int(1)), Pair([0x6B], Int(1))]);
      var b := Obj([Pair([0x6B], Int(1)), Pair([0x6A], Int(2))]);
      EqualAt(a, b, depth, maxDepth, pal) && !EqualAt(b, a, depth, maxDepth, pal)
  {
    var ps, qs := [Pair([0x6B], Int(1)), Pair([0x6B], Int(1))], [Pair([0x6B], Int(1)), Pair([0x6A], Int(2))];
    FindAt(qs, [0x6B], 0);
    FindNone(ps, [0x6A]);
    assert !HasEqual(qs[1], ps, depth + 1, maxDepth, pal);
  }
}
