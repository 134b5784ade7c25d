/** Objects under construction: json_obj_set, json_obj_finalize and json_obj_get_n as an insertion-ordered map. */
module Objects {
  import opened Base
  import opened Utf8
  import opened Fnv
  import opened Tree
  import opened KeyOrder
  import opened OrderedMap
  import opened Sort

  // ---------- the index ----------

  /** JsonPair: the key with its stored hash, and the value. */
  datatype Slot = Slot(key: bytes, hash: nat, val: Json)

  function Unslot(s: Slot): Pair { Pair(s.key, s.val) }

  function PairsOf(slots: seq<Slot>): (ps: seq<Pair>)
    ensures |ps| == |slots| && forall k :: 0 <= k < |slots| ==> ps[k] == Unslot(slots[k])
  {
    seq(|slots|, k requires 0 <= k < |slots| => Unslot(slots[k]))
  }

  /** Stored hashes are the FNV-1a hashes of their keys. */
  ghost predicate Hashed(slots: seq<Slot>) { forall k :: 0 <= k < |slots| ==> slots[k].hash == Hash(slots[k].key) }

  /** The sort context of json__obj_sort; indices past the end are never used. */
  function SortCtx(slots: seq<Slot>): Ctx {
    Ctx((k: nat) => if k < |slots| then Key(slots[k].key, slots[k].hash) else Key([], 0), false)
  }

  function Identity(n: nat): (s: seq<nat>)
    ensures |s| == n && forall k :: 0 <= k < n ==> s[k] == k
  {
    seq(n, k requires 0 <= k < n => k)
  }

  /** `idx` is a permutation of 0..n-1. */
  ghost predicate IsPermutation(idx: seq<nat>, n: nat) {
    |idx| == n && multiset(idx) == multiset(Identity(n))
  }

  /** `idx` lists the pairs in the order of hash and then key bytes. */
  ghost predicate IndexOf(slots: seq<Slot>, idx: seq<nat>) {
    IsPermutation(idx, |slots|) && Sorted(SortCtx(slots), idx, 0, |slots|)
  }

  lemma PermutationCovers(idx: seq<nat>, n: nat, k: nat)
    requires IsPermutation(idx, n) && k < n
    ensures exists x :: 0 <= x < n && idx[x] == k
  {
    assert k == Identity(n)[k];
    assert k in multiset(idx);
  }

  lemma PermutationInRange(idx: seq<nat>, n: nat, x: nat)
    requires IsPermutation(idx, n) && x < n
    ensures idx[x] < n
  {
    assert idx[x] in multiset(Identity(n));
  }

  /** Changing values only keeps the index. */
  lemma IndexKept(slots: seq<Slot>, slots': seq<Slot>, idx: seq<nat>)
    requires IndexOf(slots, idx) && |slots'| == |slots|
    requires forall k :: 0 <= k < |slots| ==> slots'[k].key == slots[k].key && slots'[k].hash == slots[k].hash
    ensures IndexOf(slots', idx)
  {
    var c, d := SortCtx(slots), SortCtx(slots');
    forall x, y | 0 <= x < y < |slots| ensures Le(d, idx[x], idx[y]) {
      assert Le(c, idx[x], idx[y]);
    }
  }

  // ---------- binary search ----------

  /** How the key of a pair compares with the key that is looked up. */
  function Against(s: Slot, key: bytes): int { CompareKeys(false, Key(s.key, s.hash), Key(key, Hash(key))) }

  lemma AgainstZero(s: Slot, key: bytes)
    requires s.hash == Hash(s.key)
    ensures Against(s, key) == 0 <==> s.key == key
  {
    CompareBytesZero(s.key, key);
  }

  lemma AgainstOrder(a: Slot, b: Slot, key: bytes)
    requires CompareKeys(false, Key(a.key, a.hash), Key(b.key, b.hash)) <= 0
    ensures Against(b, key) < 0 ==> Against(a, key) < 0
    ensures Against(a, key) > 0 ==> Against(b, key) > 0
  {
    var x, y, z := Key(a.key, a.hash), Key(b.key, b.hash), Key(key, Hash(key));
    var ctx := Ctx((k: nat) => if k == 0 then x else if k == 1 then y else z, false);
    LeOrder(ctx);
    assert Le(ctx, 0, 1);
    assert Cmp(ctx, 1, 2) == Against(b, key) && Cmp(ctx, 0, 2) == Against(a, key);
    assert Le(ctx, 2, 0) ==> Le(ctx, 2, 1);
    assert Le(ctx, 1, 2) ==> Le(ctx, 0, 2);
  }

  /** The binary search of json_obj_get_n: position of a pair with that key. */
  method BinarySearch(slots: seq<Slot>, idx: array<nat>, key: bytes) returns (r: Option<nat>)
    requires 0 < |slots| <= idx.Length && |slots| < 0x8000_0000
    requires Hashed(slots) && IndexOf(slots, idx[..|slots|])
    ensures r.Some? ==> r.value < |slots| && slots[r.value].key == key
    ensures r.None? ==> forall k :: 0 <= k < |slots| ==> slots[k].key != key
  {
    var hash := Fnv1a(key);
    var lo: int, hi: int := 0, |slots| - 1;
    SearchStart(slots, idx[..|slots|], key);
    while lo <= hi
      invariant 0 <= lo <= hi + 1 <= |slots|
      invariant SearchBounds(slots, idx[..|slots|], key, lo, hi + 1)
    {
      var mid := lo + (hi - lo) / 2;
      PermutationInRange(idx[..|slots|], |slots|, mid);
      var k := slots[idx[mid]];
      var c := if k.hash < hash then -1 else if k.hash > hash then 1 else CompareBytes(k.key, key);
      assert c == Against(k, key);
      AgainstZero(k, key);
      if c == 0 { return Some(idx[mid]); }
      SearchNarrows(slots, idx[..|slots|], key, lo, hi + 1, mid);
      if c < 0 { lo := mid + 1; } else { hi := mid - 1; }
    }
    NotFound(slots, idx[..|slots|], key, lo);
    return None;
  }

  /** Entries before `lo` are too small and entries from `e` on too great. */
  ghost predicate SearchBounds(slots: seq<Slot>, idx: seq<nat>, key: bytes, lo: nat, e: nat) {
    && lo <= e <= |idx| == |slots|
    && (forall x :: 0 <= x < |idx| ==> idx[x] < |slots|)
    && (forall x :: 0 <= x < lo ==> Against(slots[idx[x]], key) < 0)
    && (forall x :: e <= x < |idx| ==> Against(slots[idx[x]], key) > 0)
  }

  lemma SearchStart(slots: seq<Slot>, idx: seq<nat>, key: bytes)
    requires IndexOf(slots, idx)
    ensures SearchBounds(slots, idx, key, 0, |slots|)
  {
    hide IsPermutation;
    forall x | 0 <= x < |slots| ensures |idx| == |slots| && idx[x] < |slots| {
      PermutationLength(idx, |slots|);
      PermutationInRange(idx, |slots|, x);
    }
    PermutationLength(idx, |slots|);
  }

  lemma PermutationLength(idx: seq<nat>, n: nat)
    requires IsPermutation(idx, n)
    ensures |idx| == n
  {}

  lemma SearchNarrows(slots: seq<Slot>, idx: seq<nat>, key: bytes, lo: nat, e: nat, mid: nat)
    requires SearchBounds(slots, idx, key, lo, e) && lo <= mid < e && IndexOf(slots, idx)
    ensures Against(slots[idx[mid]], key) < 0 ==> SearchBounds(slots, idx, key, mid + 1, e)
    ensures Against(slots[idx[mid]], key) > 0 ==> SearchBounds(slots, idx, key, lo, mid)
  {
    hide IsPermutation;
    forall x | 0 <= x < mid ensures Against(slots[idx[mid]], key) < 0 ==> Against(slots[idx[x]], key) < 0 {
      assert Le(SortCtx(slots), idx[x], idx[mid]);
      AgainstOrder(slots[idx[x]], slots[idx[mid]], key);
    }
    forall x | mid < x < |idx| ensures Against(slots[idx[mid]], key) > 0 ==> Against(slots[idx[x]], key) > 0 {
      assert Le(SortCtx(slots), idx[mid], idx[x]);
      AgainstOrder(slots[idx[mid]], slots[idx[x]], key);
    }
  }

  lemma NotFound(slots: seq<Slot>, idx: seq<nat>, key: bytes, lo: nat)
    requires Hashed(slots) && IndexOf(slots, idx) && SearchBounds(slots, idx, key, lo, lo)
    ensures forall k :: 0 <= k < |slots| ==> slots[k].key != key
  {
    hide Sorted, IsPermutation;
    forall k | 0 <= k < |slots| ensures slots[k].key != key {
      PermutationCovers(idx, |slots|, k);
      var x :| 0 <= x < |slots| && idx[x] == k;
      AgainstZero(slots[k], key);
    }
  }

  // ---------- json_obj_set, json_obj_finalize, json_obj_get_n ----------

  /** The errors of json_obj_set, and success. */
  datatype Status = Fine | Failed(error: Error)

  class JsonObj {
    const limits: Limits
    var pairs: array<Slot>
    var len: nat
    var sortedIdx: array?<nat>
    var isSorted: bool

    ghost function Repr(): set<object?>
      reads this
    {
      if sortedIdx == null then {this, pairs} else {this, pairs, sortedIdx}
    }

    ghost function Slots(): seq<Slot>
      requires len <= pairs.Length
      reads this, pairs
    {
      pairs[..len]
    }

    /** The index, when it is marked sorted, orders exactly the pairs that the object has now. */
    ghost predicate Valid()
      reads this, Repr()
    {
      && len <= pairs.Length <= limits.arrayLen < 0x8000_0000
      && Hashed(pairs[..len])
      && (sortedIdx != null ==> sortedIdx.Length == pairs.Length)
      && (isSorted ==> sortedIdx != null && len > 0 && IndexOf(pairs[..len], sortedIdx[..len]))
    }

    /** The object as an insertion-ordered map. */
    ghost function Contents(): seq<Pair>
      requires len <= pairs.Length
      reads this, pairs
    {
      PairsOf(pairs[..len])
    }

    /** json_make_object. */
    constructor (limits: Limits)
      requires limits.arrayLen < 0x8000_0000
      ensures Valid() && fresh(Repr()) && Contents() == [] && this.limits == limits
    {
      this.limits := limits;
      pairs := new Slot[0];
      len, sortedIdx, isSorted := 0, null, false;
    }

    /** json__obj_grow; `granted` is the answer of the arena. */
    method Grow(granted: bool) returns (r: Status)
      requires Valid() && len == pairs.Length
      modifies Repr()
      ensures Valid() && fresh(Repr() - old(Repr()))
      ensures len == old(len) && Slots() == old(Slots())
      ensures r ==
        if old(pairs.Length) == limits.arrayLen then Failed(Overflow) else if !granted then Failed(Oom) else Fine
      ensures r == Fine ==> len < pairs.Length && !isSorted
      ensures var wanted := if len == 0 then 8 else 2 * len; r == Fine ==>
        pairs.Length == if wanted <= limits.arrayLen then wanted else limits.arrayLen
    {
      hide IndexOf, Hashed, PairsOf;
      var cap := pairs.Length;
      var newCap := if cap == 0 then 8 else cap * 2 % 0x1_0000_0000;
      if newCap < cap || cap >= limits.arrayLen { return Failed(Overflow); }
      if newCap > limits.arrayLen { newCap := limits.arrayLen; }
      if !granted { return Failed(Oom); }
      var bigger := new Slot[newCap];
      forall k | 0 <= k < len { bigger[k] := pairs[k]; }
      assert bigger[..len] == pairs[..len];
      pairs := bigger;
      assert pairs[..len] == old(pairs[..len]);
      sortedIdx := null;
      isSorted := false;
      return Fine;
    }

    /** The linear scan over stored hashes and keys, shared by json_obj_set and json_obj_get_n. */
    method Scan(key: bytes) returns (r: Option<nat>)
      requires Valid()
      ensures r.Some? ==>
        r.value < len && pairs[r.value].key == key && forall j :: 0 <= j < r.value ==> pairs[j].key != key
      ensures r.None? ==> forall k :: 0 <= k < len ==> pairs[k].key != key
    {
      hide IndexOf;
      var hash := Fnv1a(key);
      var i := 0;
      while i < len
        invariant i <= len && forall j :: 0 <= j < i ==> pairs[j].key != key
      {
        assert pairs[..len][i] == pairs[i];
        if pairs[i].hash == hash && pairs[i].key == key { return Some(i); }
        i := i + 1;
      }
      return None;
    }

    /**
      * json_obj_set. `growGranted` and `copyGranted` are the answers of the arena to the growth of the
      * pair table and to the copy of the key.
      */
    method Set(key: bytes, val: Json, growGranted: bool, copyGranted: bool) returns (r: Status)
      requires Valid()
      modifies Repr()
      ensures Valid() && fresh(Repr() - old(Repr()))
      ensures Contents() == if r == Fine then Put(old(Contents()), key, val) else old(Contents())
      ensures r == SetStatus(limits, old(Contents()), old(pairs.Length), key, growGranted, copyGranted)
    {
      hide IndexOf, Put, Find;
      if |key| > limits.stringLen { return Failed(Overflow); }
      var valid := IsValidUtf8(key);
      if !valid { return Failed(InvalidUtf8); }
      var found := Scan(key);
      ghost var before := pairs[..len];
      FindNone(PairsOf(before), key);
      if found.Some? {
        Replace(found.value, val);
        PutAt(PairsOf(before), key, val, found.value);
        return Fine;
      }
      if len >= pairs.Length {
        var g := Grow(growGranted);
        if g.Failed? { return g; }
      }
      if key != [] && !copyGranted { return Failed(Oom); }
      Append(key, val);
      PutNew(PairsOf(before), key, val);
      return Fine;
    }

    /** The update in place: only a value changes, so the index stays right. */
    method Replace(k: nat, val: Json)
      requires Valid() && k < len
      modifies pairs
      ensures Valid()
      ensures Contents() == old(Contents())[k := Pair(old(pairs[k]).key, val)]
    {
      ghost var before := pairs[..len];
      pairs[k] := pairs[k].(val := val);
      assert pairs[..len] == before[k := pairs[k]];
      if isSorted { IndexKept(before, pairs[..len], sortedIdx[..len]); }
    }

    /** The insertion of a new pair: the index is marked stale. */
    method Append(key: bytes, val: Json)
      requires Valid() && len < pairs.Length
      modifies this, pairs
      ensures Valid() && pairs == old(pairs) && sortedIdx == old(sortedIdx)
      ensures Contents() == old(Contents()) + [Pair(key, val)]
    {
      ghost var before := pairs[..len];
      var hash := Fnv1a(key);
      pairs[len] := Slot(key, hash, val);
      len := len + 1;
      isSorted := false;
      assert pairs[..len] == before + [pairs[len - 1]];
    }

    /** json_obj_finalize: builds the index; `granted` is the answer of the arena. */
    method Finalize(granted: bool) returns (r: Status)
      requires Valid()
      modifies Repr()
      ensures Valid() && fresh(Repr() - old(Repr()))
      ensures Contents() == old(Contents())
      ensures r == Fine ==> len == 0 || isSorted
      ensures r == if old(isSorted) || len == 0 || old(sortedIdx) != null || granted then Fine else Failed(Oom)
    {
      hide Sorted, Permuted, Hashed, PairsOf;
      if isSorted || len == 0 { return Fine; }
      if sortedIdx == null {
        if !granted { return Failed(Oom); }
        sortedIdx := new nat[pairs.Length];
      }
      ghost var slots := pairs[..len];
      var i := 0;
      while i < len
        invariant i <= len <= pairs.Length && sortedIdx != null && sortedIdx.Length == pairs.Length
        invariant pairs[..len] == slots && forall k :: 0 <= k < i ==> sortedIdx[k] == k
        modifies sortedIdx
      {
        sortedIdx[i] := i;
        i := i + 1;
      }
      var ctx := SortCtx(pairs[..len]);
      ghost var start := sortedIdx[..];
      if len > 1 {
        var cmps, nested := SortIndices(ctx, INTROSORT_THRESH, sortedIdx, len);
        PermutedIdentity(start, sortedIdx[..], len, ctx);
      } else {
        OneEntry(slots, sortedIdx[..len]);
      }
      isSorted := true;
      return Fine;
    }

    /** json_obj_get_n: by the index when it is built, otherwise by scanning. */
    method Get(key: bytes) returns (r: Option<Json>)
      requires Valid()
      ensures r.Some? <==> Find(Contents(), key).Some?
      ensures r.Some? ==> exists k :: 0 <= k < len && Contents()[k] == Pair(key, r.value)
      ensures !isSorted || UniqueKeys(Contents()) ==> r == Find(Contents(), key)
    {
      hide Find;
      FindNone(Contents(), key);
      if len == 0 { return None; }
      if !isSorted || sortedIdx == null {
        var at := Scan(key);
        if at.None? { return None; }
        FindAt(Contents(), key, at.value);
        assert Contents()[at.value] == Pair(key, pairs[at.value].val);
        return Some(pairs[at.value].val);
      }
      var at := BinarySearch(pairs[..len], sortedIdx, key);
      if at.None? { return None; }
      assert Contents()[at.value] == Pair(key, pairs[at.value].val);
      if UniqueKeys(Contents()) { FindUnique(Contents(), key, at.value); }
      return Some(pairs[at.value].val);
    }
  }

  /** When json_obj_set fails, and how. */
  function SetStatus(l: Limits, ps: seq<Pair>, cap: nat, key: bytes, growGranted: bool, copyGranted: bool): Status {
    if |key| > l.stringLen then Failed(Overflow)
    else if !ValidUtf8(key) then Failed(InvalidUtf8)
    else if Find(ps, key).Some? then Fine
    else if |ps| >= cap && cap == l.arrayLen then Failed(Overflow)
    else if |ps| >= cap && !growGranted then Failed(Oom)
    else if key != [] && !copyGranted then Failed(Oom)
    else Fine
  }

  /** The reason of each failure: a key that is too long or not UTF-8, a full object, or the arena. */
  lemma SetReasons(l: Limits, ps: seq<Pair>, cap: nat, key: bytes, growGranted: bool, copyGranted: bool)
    requires |ps| <= cap <= l.arrayLen
    ensures var r, added := SetStatus(l, ps, cap, key, growGranted, copyGranted), forall p <- ps :: p.key != key;
      var fits, full := |key| <= l.stringLen && ValidUtf8(key), |ps| == l.arrayLen;
      && (r == Failed(InvalidUtf8) <==> |key| <= l.stringLen && !ValidUtf8(key))
      && (r == Failed(Overflow) <==> |key| > l.stringLen || (fits && added && full))
      && (r == Failed(Oom) <==> fits && added && !full
                                && ((|ps| == cap && !growGranted) || (key != [] && !copyGranted)))
      && (r.Failed? ==> r.error in {InvalidUtf8, Overflow, Oom})
  {
    hide ValidUtf8, Find;
    FindNone(ps, key);
  }

  /** Rearranging 0..len-1 gives a permutation. */
  lemma PermutedIdentity(s: seq<nat>, t: seq<nat>, len: nat, ctx: Ctx)
    requires len <= |s| && Permuted(s, t, 0, len) && Sorted(ctx, t, 0, len)
    requires forall k :: 0 <= k < len ==> s[k] == k
    ensures IsPermutation(t[..len], len) && Sorted(ctx, t[..len], 0, len)
  {
    assert s[0..len] == Identity(len);
    assert t[0..len] == t[..len];
  }

  lemma OneEntry(slots: seq<Slot>, idx: seq<nat>)
    requires |slots| == 1 && idx == [0]
    ensures IndexOf(slots, idx)
  {
    assert Identity(1) == [0];
  }

  // ---------- whole runs ----------

  /** One operation of a run. */
  method Apply(o: JsonObj, op: Op) returns (ok: bool)
    requires o.Valid()
    modifies o.Repr()
    ensures o.Valid() && fresh(o.Repr() - old(o.Repr()))
    ensures o.Contents() == if op.SetOp? && ok then Put(old(o.Contents()), op.key, op.val) else old(o.Contents())
    ensures ok ==> Allowed(o.limits, old(o.Contents()), op)
    ensures Granted(op) && Allowed(o.limits, old(o.Contents()), op) ==> ok
  {
    hide Put, Find, IndexOf, ValidUtf8;
    var r;
    match op {
      case SetOp(key, val, growGranted, copyGranted) => r := o.Set(key, val, growGranted, copyGranted);
      case FinalizeOp(granted) => r := o.Finalize(granted);
    }
    ok := r == Fine;
  }

  /** Runs a sequence of operations on a new object; `oks` says which of them succeeded. */
  method Run(limits: Limits, ops: seq<Op>) returns (o: JsonObj, oks: seq<bool>)
    requires limits.arrayLen < 0x8000_0000
    ensures fresh(o) && o.Valid() && |oks| == |ops|
    ensures o.Contents() == RunPairs(ops, oks) && Expected(limits, ops, oks)
  {
    hide Put, Find, IndexOf, Expected, ValidUtf8, RunPairs, Allowed, Granted, Hashed;
    o := new JsonObj(limits);
    oks := [];
    NothingRun(limits);
    assert ops[..0] == [];
    for i := 0 to |ops|
      invariant fresh(o) && fresh(o.Repr()) && o.Valid() && |oks| == i && o.limits == limits
      invariant o.Contents() == RunPairs(ops[..i], oks) && Expected(limits, ops[..i], oks)
    {
      var ok := Apply(o, ops[i]);
      ExpectedSnoc(limits, ops[..i], oks, ops[i], ok);
      RunPairsSnoc(ops[..i], oks, ops[i], ok);
      assert ops[..i + 1] == ops[..i] + [ops[i]];
      oks := oks + [ok];
    }
    assert ops[..|ops|] == ops;
  }

  /** After any run, finalized or not, a lookup answers as the map does. */
  method RunThenGet(limits: Limits, ops: seq<Op>, key: bytes) returns (r: Option<Json>, oks: seq<bool>)
    requires limits.arrayLen < 0x8000_0000
    ensures |oks| == |ops| && Expected(limits, ops, oks)
    ensures r == Lookup(RunMap(ops, oks), key)
  {
    var o;
    o, oks := Run(limits, ops);
    RunIsOrderedMap(ops, oks);
    r := o.Get(key);
  }
}
