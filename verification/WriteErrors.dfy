/** Why json_write stops: the first value, in writing order, that cannot be written. */
module WriteErrors {
  import opened Base
  import opened Utf8
  import opened Tree
  import opened WriterSpec
  import opened Arrangement
  import opened Measure

  /**
    * Writing `t` at that level stops with `x`: the value is too deep, a string is not UTF-8, a double has no
    * rendering or one of 32 bytes and more, or the first element that cannot be written stops with `x`.
    */
  ghost predicate Stops(t: Json, st: Style, level: nat, x: Error)
    decreases t
  {
    if level >= st.maxDepth then x == DepthExceeded
    else match t
      case Str(s) => x == InvalidUtf8 && !ValidUtf8(s)
      case Float(f) =>
        (match st.pal.format(f)
         case None => x == InvalidNumber
         case Some(u) => x == Overflow && |u| >= 32)
      case Arr(items) =>
        SomeStops(items, st, level + 1, x)
      case Obj(pairs) =>
        SomePairStops(pairs, st, level + 1, x)
      case _ => false
  }

  ghost predicate SomeStops(items: seq<Json>, st: Style, level: nat, x: Error)
    decreases items, 1
  {
    exists k: nat :: StopsFirst(items, k, st, level, x)
  }

  ghost predicate SomePairStops(pairs: seq<Pair>, st: Style, level: nat, x: Error)
    decreases pairs, 1
  {
    exists k: nat :: PairStopsFirst(pairs, k, st, level, x)
  }

  /** Element number k is the first that stops the writer. */
  ghost predicate StopsFirst(items: seq<Json>, k: nat, st: Style, level: nat, x: Error)
    decreases items, 0
  {
    k < |items| && Stops(items[k], st, level, x) && forall j, y :: 0 <= j < k ==> !Stops(items[j], st, level, y)
  }

  ghost predicate PairStopsFirst(pairs: seq<Pair>, k: nat, st: Style, level: nat, x: Error)
    decreases pairs, 0
  {
    k < |pairs| && PairStops(pairs[k], st, level, x)
    && forall j, y :: 0 <= j < k ==> !PairStops(pairs[j], st, level, y)
  }

  ghost predicate PairStops(p: Pair, st: Style, level: nat, x: Error)
    decreases p
  {
    Stops(p.val, st, level, x)
  }

  /** Output number k is the first that has an error, and the error is `x`. */
  ghost predicate FirstError(outs: seq<Out>, k: nat, x: Error) {
    k < |outs| && outs[k].error == Some(x) && forall j :: 0 <= j < k ==> outs[j].error.None?
  }

  function ItemOuts(items: seq<Json>, st: Style, depth: nat): (os: seq<Out>)
    ensures |os| == |items| && forall k :: 0 <= k < |os| ==> os[k] == ValueOut(items[k], st, depth)
  {
    seq(|items|, k requires 0 <= k < |items| => ValueOut(items[k], st, depth))
  }

  function PairOuts(pairs: seq<Pair>, st: Style, depth: nat): (os: seq<Out>)
    ensures |os| == |pairs| && forall k :: 0 <= k < |os| ==> os[k] == ValueOut(pairs[k].val, st, depth)
  {
    seq(|pairs|, k requires 0 <= k < |pairs| => ValueOut(pairs[k].val, st, depth))
  }

  lemma FirstOfMore(outs: seq<Out>, out: Out, x: Error)
    ensures (exists k: nat :: FirstError(outs + [out], k, x)) <==>
      (exists k: nat :: FirstError(outs, k, x))
      || ((forall j :: 0 <= j < |outs| ==> outs[j].error.None?) && out.error == Some(x))
  {
    var all := outs + [out];
    assert forall j :: 0 <= j < |outs| ==> all[j] == outs[j];
    if k: nat :| FirstError(all, k, x) { assert k < |outs| ==> FirstError(outs, k, x); }
    if k: nat :| FirstError(outs, k, x) { assert FirstError(all, k, x); }
    if (forall j :: 0 <= j < |outs| ==> outs[j].error.None?) && out.error == Some(x) {
      assert FirstError(all, |outs|, x);
    }
  }

  lemma {:induction false} ItemsStop(items: seq<Json>, st: Style, depth: nat, x: Error)
    ensures ItemsOut(items, st, depth).error == Some(x)
      <==> exists k: nat :: FirstError(ItemOuts(items, st, depth), k, x)
    ensures ItemsOut(items, st, depth).error.None?
      <==> forall k :: 0 <= k < |items| ==> ValueOut(items[k], st, depth).error.None?
    decreases |items|
  {
    hide ItemsOut, ValueOut, LineBreak, FirstError;
    NothingOut(st, depth);
    if items == [] {
      NothingFirst(x);
      assert ItemOuts(items, st, depth) == [];
    } else {
      var n := |items| - 1;
      ItemsStop(items[..n], st, depth, x);
      assert items == items[..n] + [items[n]];
      ItemsSnoc(items[..n], items[n], st, depth);
      FirstOfMore(ItemOuts(items[..n], st, depth), ValueOut(items[n], st, depth), x);
      assert ItemOuts(items, st, depth) == ItemOuts(items[..n], st, depth) + [ValueOut(items[n], st, depth)];
    }
  }

  lemma NothingFirst(x: Error)
    ensures !exists k: nat :: FirstError([], k, x)
  {}

  lemma {:induction false} PairsStop(pairs: seq<Pair>, st: Style, depth: nat, x: Error)
    ensures PairsOut(pairs, st, depth).error == Some(x)
      <==> exists k: nat :: FirstError(PairOuts(pairs, st, depth), k, x)
    ensures PairsOut(pairs, st, depth).error.None?
      <==> forall k :: 0 <= k < |pairs| ==> ValueOut(pairs[k].val, st, depth).error.None?
    decreases |pairs|
  {
    hide PairsOut, ValueOut, LineBreak, KeyText, FirstError;
    NothingOut(st, depth);
    if pairs == [] {
      NothingFirst(x);
      assert PairOuts(pairs, st, depth) == [];
    } else {
      var n := |pairs| - 1;
      PairsStop(pairs[..n], st, depth, x);
      assert pairs == pairs[..n] + [pairs[n]];
      PairsSnoc(pairs[..n], pairs[n], st, depth);
      FirstOfMore(PairOuts(pairs[..n], st, depth), ValueOut(pairs[n].val, st, depth), x);
      assert PairOuts(pairs, st, depth) == PairOuts(pairs[..n], st, depth) + [ValueOut(pairs[n].val, st, depth)];
    }
  }

  lemma {:induction false} StringStops(s: bytes, i: nat, ascii: bool)
    requires i <= |s|
    ensures StringOut(s, i, ascii).error == if ValidFrom(s, i) then None else Some(InvalidUtf8)
    decreases |s| - i
  {
    hide CharOut;
    if i < |s| && DecodeAt(s, i).Some? { StringStops(s, i + DecodeAt(s, i).value.count, ascii); }
  }

  lemma ArrayError(items: seq<Json>, st: Style, level: nat, x: Error)
    ensures ValueOut(Arr(items), st, level).error == Some(x) <==>
      if level >= st.maxDepth then x == DepthExceeded else ItemsOut(items, st, level + 1).error == Some(x)
  {
    hide ItemsOut;
  }

  lemma ObjectError(pairs: seq<Pair>, st: Style, level: nat, x: Error)
    ensures ValueOut(Obj(pairs), st, level).error == Some(x) <==>
      if level >= st.maxDepth then x == DepthExceeded else PairsOut(pairs, st, level + 1).error == Some(x)
  {
    hide PairsOut;
  }

  lemma NoError(out: Out)
    ensures out.error.None? <==> forall x :: out.error != Some(x)
  {
    if out.error.Some? { assert out.error == Some(out.error.value); }
  }

  lemma SameFirstItem(items: seq<Json>, st: Style, level: nat, x: Error)
    requires forall j, y :: 0 <= j < |items| ==>
      (ValueOut(items[j], st, level).error == Some(y) <==> Stops(items[j], st, level, y))
    ensures ItemsOut(items, st, level).error == Some(x) <==> SomeStops(items, st, level, x)
  {
    hide ItemsOut, ValueOut, Stops;
    ItemsStop(items, st, level, x);
    var outs := ItemOuts(items, st, level);
    if k: nat :| FirstError(outs, k, x) {
      forall j, y | 0 <= j < k ensures !Stops(items[j], st, level, y) {
        assert outs[j].error != Some(y) && outs[j] == ValueOut(items[j], st, level);
      }
      assert StopsFirst(items, k, st, level, x);
    }
    if k: nat :| StopsFirst(items, k, st, level, x) {
      forall j | 0 <= j < k ensures outs[j].error.None? {
        forall y ensures outs[j].error != Some(y) { assert !Stops(items[j], st, level, y); }
        NoError(outs[j]);
      }
      assert FirstError(outs, k, x);
    }
  }

  lemma SameFirstPair(pairs: seq<Pair>, st: Style, level: nat, x: Error)
    requires forall j, y :: 0 <= j < |pairs| ==>
      (ValueOut(pairs[j].val, st, level).error == Some(y) <==> PairStops(pairs[j], st, level, y))
    ensures PairsOut(pairs, st, level).error == Some(x) <==> SomePairStops(pairs, st, level, x)
  {
    hide PairsOut, ValueOut, PairStops;
    PairsStop(pairs, st, level, x);
    var outs := PairOuts(pairs, st, level);
    if k: nat :| FirstError(outs, k, x) {
      forall j, y | 0 <= j < k ensures !PairStops(pairs[j], st, level, y) {
        assert outs[j].error != Some(y) && outs[j] == ValueOut(pairs[j].val, st, level);
      }
      assert PairStopsFirst(pairs, k, st, level, x);
    }
    if k: nat :| PairStopsFirst(pairs, k, st, level, x) {
      forall j | 0 <= j < k ensures outs[j].error.None? {
        forall y ensures outs[j].error != Some(y) { assert !PairStops(pairs[j], st, level, y); }
        NoError(outs[j]);
      }
      assert FirstError(outs, k, x);
    }
  }

  /** The error of json_write, in every style: the first value that cannot be written decides. */
  lemma {:induction false} WriteStops(t: Json, st: Style, level: nat, x: Error)
    ensures ValueOut(t, st, level).error == Some(x) <==> Stops(t, st, level, x)
    decreases t
  {
    hide HasDot, SomeStops, SomePairStops, ItemsOut, PairsOut;
    match t
    case Arr(items) =>
      forall j, y | 0 <= j < |items|
        ensures ValueOut(items[j], st, level + 1).error == Some(y) <==> Stops(items[j], st, level + 1, y)
      {
        WriteStops(items[j], st, level + 1, y);
      }
      SameFirstItem(items, st, level + 1, x);
      ArrayError(items, st, level, x);
    case Obj(pairs) =>
      forall j, y | 0 <= j < |pairs|
        ensures ValueOut(pairs[j].val, st, level + 1).error == Some(y) <==> PairStops(pairs[j], st, level + 1, y)
      {
        WriteStops(pairs[j].val, st, level + 1, y);
      }
      SameFirstPair(pairs, st, level + 1, x);
      ObjectError(pairs, st, level, x);
    case Str(s) => StringStops(s, 0, st.opts.asciiOnly);
    case _ =>
  }
}
