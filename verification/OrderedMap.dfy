/** The insertion-ordered map that an object is, and runs of operations on it. */
module OrderedMap {
  import opened Base
  import opened Utf8
  import opened Tree

  // ---------- lookup and update ----------

  /** Value of the first pair with that key. */
  function Find(ps: seq<Pair>, key: bytes): Option<Json> {
    if ps == [] then None else if ps[0].key == key then Some(ps[0].val) else Find(ps[1..], key)
  }

  /** Replaces the value of the first pair with that key, or appends a pair. */
  function Put(ps: seq<Pair>, key: bytes, val: Json): seq<Pair> {
    if ps == [] then [Pair(key, val)]
    else if ps[0].key == key then [Pair(key, val)] + ps[1..]
    else [ps[0]] + Put(ps[1..], key, val)
  }

  predicate UniqueKeys(ps: seq<Pair>) {
    forall i, j :: 0 <= i < j < |ps| ==> ps[i].key != ps[j].key
  }

  /** Some pair has that key. */
  ghost predicate HasKey(ps: seq<Pair>, key: bytes) { exists k :: 0 <= k < |ps| && ps[k].key == key }

  lemma {:induction false} FindNone(ps: seq<Pair>, key: bytes)
    ensures Find(ps, key).None? <==> forall k :: 0 <= k < |ps| ==> ps[k].key != key
  {
    if ps != [] {
      FindNone(ps[1..], key);
      if Find(ps, key).None? {
        forall k | 0 <= k < |ps| ensures ps[k].key != key { if k > 0 { assert ps[k] == ps[1..][k - 1]; } }
      } else if ps[0].key != key {
        var k :| 0 <= k < |ps[1..]| && ps[1..][k].key == key;
        assert ps[k + 1].key == key;
      }
    }
  }

  /** The first occurrence of a key decides. */
  lemma {:induction false} FindAt(ps: seq<Pair>, key: bytes, k: nat)
    requires k < |ps| && ps[k].key == key && forall j :: 0 <= j < k ==> ps[j].key != key
    ensures Find(ps, key) == Some(ps[k].val)
  {
    if k > 0 {
      assert ps[0].key != key;
      assert forall j :: 0 <= j < k - 1 ==> ps[1..][j] == ps[j + 1];
      FindAt(ps[1..], key, k - 1);
    }
  }

  lemma FindUnique(ps: seq<Pair>, key: bytes, k: nat)
    requires UniqueKeys(ps) && k < |ps| && ps[k].key == key
    ensures Find(ps, key) == Some(ps[k].val)
  {
    FindAt(ps, key, k);
  }

  /** Put on the first occurrence, and Put of a new key, written with indices. */
  lemma {:induction false} PutAt(ps: seq<Pair>, key: bytes, val: Json, k: nat)
    requires k < |ps| && ps[k].key == key && forall j :: 0 <= j < k ==> ps[j].key != key
    ensures Put(ps, key, val) == ps[k := Pair(key, val)]
  {
    if k == 0 {
      assert ps[0 := Pair(key, val)] == [Pair(key, val)] + ps[1..];
    } else {
      assert ps[0].key != key;
      assert forall j :: 0 <= j < k - 1 ==> ps[1..][j] == ps[j + 1];
      PutAt(ps[1..], key, val, k - 1);
      assert ps[k := Pair(key, val)] == [ps[0]] + ps[1..][k - 1 := Pair(key, val)];
    }
  }

  lemma {:induction false} PutNew(ps: seq<Pair>, key: bytes, val: Json)
    requires forall j :: 0 <= j < |ps| ==> ps[j].key != key
    ensures Put(ps, key, val) == ps + [Pair(key, val)]
  {
    if ps != [] {
      assert ps[0].key != key;
      assert forall j :: 0 <= j < |ps| - 1 ==> ps[1..][j] == ps[j + 1];
      PutNew(ps[1..], key, val);
      assert ps + [Pair(key, val)] == [ps[0]] + (ps[1..] + [Pair(key, val)]);
    }
  }

  /** Looking up after a Put: the key that was put has the new value, every other key its old one. */
  lemma {:induction false} FindPut(ps: seq<Pair>, key: bytes, val: Json, other: bytes)
    ensures Find(Put(ps, key, val), other) == if other == key then Some(val) else Find(ps, other)
  {
    if ps != [] && ps[0].key != key {
      FindPut(ps[1..], key, val, other);
      assert Put(ps, key, val)[1..] == Put(ps[1..], key, val);
    } else if ps != [] {
      assert Put(ps, key, val)[1..] == ps[1..];
    }
  }

  function Keys(ps: seq<Pair>): seq<bytes> { seq(|ps|, k requires 0 <= k < |ps| => ps[k].key) }

  /** A Put never reorders keys: it leaves them alone or appends one. */
  lemma KeysPut(ps: seq<Pair>, key: bytes, val: Json)
    ensures Keys(Put(ps, key, val)) == if Find(ps, key).Some? then Keys(ps) else Keys(ps) + [key]
    ensures UniqueKeys(ps) ==> UniqueKeys(Put(ps, key, val))
  {
    FindNone(ps, key);
    if Find(ps, key).Some? {
      var k := FirstIndex(ps, key);
      PutAt(ps, key, val, k);
    } else {
      PutNew(ps, key, val);
    }
  }

  lemma {:induction false} FirstIndex(ps: seq<Pair>, key: bytes) returns (k: nat)
    requires Find(ps, key).Some?
    ensures k < |ps| && ps[k].key == key && forall j :: 0 <= j < k ==> ps[j].key != key
  {
    if ps[0].key == key {
      k := 0;
    } else {
      var k' := FirstIndex(ps[1..], key);
      k := k' + 1;
      forall j | 0 <= j < k ensures ps[j].key != key { if j > 0 { assert ps[j] == ps[1..][j - 1]; } }
    }
  }

  // ---------- whole runs ----------

  /** What a caller does to an object: json_obj_set or json_obj_finalize, with the arena's answers. */
  datatype Op = SetOp(key: bytes, val: Json, growGranted: bool, copyGranted: bool) | FinalizeOp(granted: bool)

  /** The pairs that a run leaves, when `oks` says which operations succeeded. */
  function RunPairs(ops: seq<Op>, oks: seq<bool>): seq<Pair>
    requires |oks| == |ops|
  {
    if ops == [] then []
    else
      var n := |ops| - 1;
      var before := RunPairs(ops[..n], oks[..n]);
      if ops[n].SetOp? && oks[n] then Put(before, ops[n].key, ops[n].val) else before
  }

  /** The same run on an ordinary map. */
  function RunMap(ops: seq<Op>, oks: seq<bool>): map<bytes, Json>
    requires |oks| == |ops|
  {
    if ops == [] then map[]
    else
      var n := |ops| - 1;
      var before := RunMap(ops[..n], oks[..n]);
      if ops[n].SetOp? && oks[n] then before[ops[n].key := ops[n].val] else before
  }

  function Lookup(m: map<bytes, Json>, key: bytes): Option<Json> { if key in m then Some(m[key]) else None }

  /** The arena serves every request of the operation. */
  predicate Granted(op: Op) {
    match op
    case SetOp(_, _, growGranted, copyGranted) => growGranted && copyGranted
    case FinalizeOp(granted) => granted
  }

  /** The operation is within the limits of the library. */
  predicate Allowed(l: Limits, ps: seq<Pair>, op: Op) {
    match op
    case SetOp(key, _, _, _) =>
      |key| <= l.stringLen && ValidUtf8(key) && (Find(ps, key).Some? || |ps| < l.arrayLen)
    case FinalizeOp(_) => true
  }

  /** An operation succeeds only if it is allowed, and then unless the arena refuses. */
  ghost predicate Expected(l: Limits, ops: seq<Op>, oks: seq<bool>) {
    |oks| == |ops| && forall i {:trigger oks[i]} :: 0 <= i < |ops| ==>
      (oks[i] ==> Allowed(l, RunPairs(ops[..i], oks[..i]), ops[i]))
      && (Granted(ops[i]) && Allowed(l, RunPairs(ops[..i], oks[..i]), ops[i]) ==> oks[i])
  }

  lemma ExpectedSnoc(l: Limits, ops: seq<Op>, oks: seq<bool>, op: Op, ok: bool)
    requires Expected(l, ops, oks)
    requires ok ==> Allowed(l, RunPairs(ops, oks), op)
    requires Granted(op) && Allowed(l, RunPairs(ops, oks), op) ==> ok
    ensures Expected(l, ops + [op], oks + [ok])
  {
    hide RunPairs, Allowed, Granted;
    var ops', oks' := ops + [op], oks + [ok];
    forall i {:trigger oks'[i]} | 0 <= i < |ops'|
      ensures oks'[i] ==> Allowed(l, RunPairs(ops'[..i], oks'[..i]), ops'[i])
      ensures Granted(ops'[i]) && Allowed(l, RunPairs(ops'[..i], oks'[..i]), ops'[i]) ==> oks'[i]
    {
      if i < |ops| {
        assert ops'[..i] == ops[..i] && oks'[..i] == oks[..i];
        assert oks'[i] == oks[i];
      } else {
        assert ops'[..i] == ops && oks'[..i] == oks;
      }
    }
  }

  /** The keys of a run in order of first successful insertion. */
  function RunKeys(ops: seq<Op>, oks: seq<bool>): seq<bytes>
    requires |oks| == |ops|
  {
    if ops == [] then []
    else
      var n := |ops| - 1;
      var before := RunKeys(ops[..n], oks[..n]);
      if ops[n].SetOp? && oks[n] && ops[n].key !in before then before + [ops[n].key] else before
  }

  /** An object behaves as an insertion-ordered map over every run. */
  lemma {:induction false} RunIsOrderedMap(ops: seq<Op>, oks: seq<bool>)
    requires |oks| == |ops|
    ensures UniqueKeys(RunPairs(ops, oks))
    ensures Keys(RunPairs(ops, oks)) == RunKeys(ops, oks)
    ensures forall key :: Find(RunPairs(ops, oks), key) == Lookup(RunMap(ops, oks), key)
    decreases |ops|
  {
    if ops != [] {
      var n := |ops| - 1;
      RunIsOrderedMap(ops[..n], oks[..n]);
      var before, op := RunPairs(ops[..n], oks[..n]), ops[n];
      if op.SetOp? && oks[n] {
        KeysPut(before, op.key, op.val);
        forall key
          ensures Find(Put(before, op.key, op.val), key) == if key == op.key then Some(op.val) else Find(before, key)
        {
          FindPut(before, op.key, op.val, key);
        }
        FindNone(before, op.key);
        KeyMember(before, op.key);
      }
    }
  }

  lemma KeyMember(ps: seq<Pair>, key: bytes)
    ensures key in Keys(ps) <==> Find(ps, key).Some?
  {
    FindNone(ps, key);
    if key in Keys(ps) {
      var k :| 0 <= k < |ps| && Keys(ps)[k] == key;
    }
    if Find(ps, key).Some? {
      var k := FirstIndex(ps, key);
      assert Keys(ps)[k] == key;
    }
  }

  lemma RunPairsSnoc(ops: seq<Op>, oks: seq<bool>, op: Op, ok: bool)
    requires |oks| == |ops|
    ensures RunPairs(ops + [op], oks + [ok])
      == if op.SetOp? && ok then Put(RunPairs(ops, oks), op.key, op.val) else RunPairs(ops, oks)
  {
    assert (ops + [op])[..|ops|] == ops && (oks + [ok])[..|oks|] == oks;
  }

  lemma NothingRun(limits: Limits)
    ensures RunPairs([], []) == [] && Expected(limits, [], [])
  {}
}
