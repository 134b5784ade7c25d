/** JSON values as finite trees, the configured limits, and the floating-point services. */
module Tree {
  import opened Base

  /** A double, by its bit pattern. Its arithmetic is foreign to the library. */
  type Double = nat

  /** A value. Objects are sequences of pairs in insertion order, duplicates included. */
  datatype Json =
    | Null
    | Bool(b: bool)
    | Int(i: int)
    | Float(f: Double)
    | Str(s: bytes)
    | Arr(items: seq<Json>)
    | Obj(pairs: seq<Pair>)

  datatype Pair = Pair(key: bytes, val: Json)

  /** JSON_MAX_DEPTH, JSON_MAX_NODES, JSON_MAX_ARRAY_LEN, JSON_MAX_STRING_LEN. */
  datatype Limits = Limits(depth: nat, nodes: nat, arrayLen: nat, stringLen: nat)

  /**
    * Floating-point services: signed zero, mantissa times a small power of ten, strtod (None when
    * the result is not finite), decimal rendering, conversion from integers and comparison.
    * `fastFloat` is JSON_FAST_FLOAT.
    */
  datatype Pal = Pal(
    fastFloat: bool,
    zero: bool -> Double,
    scale: (bool, nat, int) -> Double,
    strtod: bytes -> Option<Double>,
    format: Double -> Option<bytes>,
    ofInt: int -> Double,
    eq: (Double, Double) -> bool)

  /** Number of nodes of a tree: one for each value in it. */
  function Nodes(t: Json): (n: nat)
    ensures n >= 1
    decreases t, 0
  {
    match t
    case Arr(items) => 1 + ItemNodes(items)
    case Obj(pairs) => 1 + PairNodes(pairs)
    case _ => 1
  }

  function ItemNodes(items: seq<Json>): nat
    decreases items, 1
  {
    if items == [] then 0 else Nodes(items[0]) + ItemNodes(items[1..])
  }

  function PairNodes(pairs: seq<Pair>): nat
    decreases pairs, 1
  {
    if pairs == [] then 0 else Nodes(pairs[0].val) + PairNodes(pairs[1..])
  }

  /**
    * A tree the parser can return when the root is at nesting level `level`: containers lie at level
    * depth - 2 or less, and arrays, objects, strings and keys respect their length limits.
    */
  predicate Fits(t: Json, l: Limits, level: nat)
    decreases t
  {
    match t
    case Str(s) => |s| <= l.stringLen
    case Arr(items) =>
      level + 1 < l.depth && |items| <= l.arrayLen && forall k :: 0 <= k < |items| ==> Fits(items[k], l, level + 1)
    case Obj(pairs) =>
      level + 1 < l.depth && |pairs| <= l.arrayLen
      && forall k :: 0 <= k < |pairs| ==> PairFits(pairs[k], l, level + 1)
    case _ => true
  }

  predicate PairFits(p: Pair, l: Limits, level: nat)
    decreases p
  {
    |p.key| <= l.stringLen && Fits(p.val, l, level)
  }

  /** No doubles anywhere. Keys may be repeated. */
  predicate NoFloat(t: Json)
    decreases t
  {
    match t
    case Float(_) => false
    case Arr(items) => forall k :: 0 <= k < |items| ==> NoFloat(items[k])
    case Obj(pairs) => forall k :: 0 <= k < |pairs| ==> NoFloatPair(pairs[k])
    case _ => true
  }

  predicate NoFloatPair(p: Pair)
    decreases p
  {
    NoFloat(p.val)
  }

  // ---------- room for any tree ----------

  predicate NoLess(l: Limits, l': Limits) {
    l.depth <= l'.depth && l.nodes <= l'.nodes && l.arrayLen <= l'.arrayLen && l.stringLen <= l'.stringLen
  }

  lemma {:induction false} FitsMore(t: Json, l: Limits, l': Limits, level: nat)
    requires Fits(t, l, level) && NoLess(l, l')
    ensures Fits(t, l', level)
    decreases t
  {
    match t
    case Arr(items) =>
      forall k | 0 <= k < |items| ensures Fits(items[k], l', level + 1) { FitsMore(items[k], l, l', level + 1); }
    case Obj(pairs) =>
      forall k | 0 <= k < |pairs|
        ensures PairFits(pairs[k], l', level + 1)
      {
        FitsMore(pairs[k].val, l, l', level + 1);
      }
    case _ =>
  }

  function Larger(a: Limits, b: Limits): (l: Limits)
    ensures NoLess(a, l) && NoLess(b, l)
  {
    Limits(a.depth + b.depth, a.nodes + b.nodes, a.arrayLen + b.arrayLen, a.stringLen + b.stringLen)
  }

  /** Limits that admit a given tree: every finite tree is within some limits. */
  lemma {:induction false} RoomFor(t: Json, level: nat) returns (l: Limits)
    ensures Fits(t, l, level) && Nodes(t) <= l.nodes
    decreases t, 1
  {
    match t
    case Str(s) => l := Limits(0, 1, 0, |s|);
    case Arr(items) =>
      var a := RoomForItems(items, level + 1);
      l := Larger(a, Limits(level + 2, Nodes(t), |items|, 0));
      forall k | 0 <= k < |items| ensures Fits(items[k], l, level + 1) { FitsMore(items[k], a, l, level + 1); }
    case Obj(pairs) =>
      var a := RoomForPairs(pairs, level + 1);
      l := Larger(a, Limits(level + 2, Nodes(t), |pairs|, 0));
      forall k | 0 <= k < |pairs| ensures PairFits(pairs[k], l, level + 1) { FitsMore(pairs[k].val, a, l, level + 1); }
    case _ => l := Limits(0, 1, 0, 0);
  }

  lemma {:induction false} RoomForItems(items: seq<Json>, level: nat) returns (l: Limits)
    ensures forall k :: 0 <= k < |items| ==> Fits(items[k], l, level)
    decreases items, 0
  {
    l := Limits(0, 0, 0, 0);
    if items != [] {
      var a := RoomFor(items[0], level);
      var b := RoomForItems(items[1..], level);
      l := Larger(a, b);
      FitsMore(items[0], a, l, level);
      forall k | 0 <= k < |items| ensures Fits(items[k], l, level) {
        if k > 0 { FitsMore(items[1..][k - 1], b, l, level); }
      }
    }
  }

  lemma {:induction false} RoomForPairs(pairs: seq<Pair>, level: nat) returns (l: Limits)
    ensures forall k :: 0 <= k < |pairs| ==> PairFits(pairs[k], l, level)
    decreases pairs, 0
  {
    l := Limits(0, 0, 0, 0);
    if pairs != [] {
      var a := RoomFor(pairs[0].val, level);
      var b := RoomForPairs(pairs[1..], level);
      l := Larger(Larger(a, b), Limits(0, 0, 0, |pairs[0].key|));
      FitsMore(pairs[0].val, a, l, level);
      forall k | 0 <= k < |pairs| ensures PairFits(pairs[k], l, level) {
        if k > 0 { FitsMore(pairs[1..][k - 1].val, b, l, level); }
      }
    }
  }
}
