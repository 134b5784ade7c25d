/** Counting keys: when a list of pairs repeats one, and the pigeonhole behind the one-way key lookup. */
module KeySets {
  import opened Base
  import opened Tree
  import opened OrderedMap

  function KeySet(ps: seq<Pair>): set<bytes> {
    if ps == [] then {} else KeySet(ps[..|ps| - 1]) + {ps[|ps| - 1].key}
  }

  lemma {:induction false} KeySetHas(ps: seq<Pair>, key: bytes)
    ensures key in KeySet(ps) <==> exists k :: 0 <= k < |ps| && ps[k].key == key
    decreases |ps|
  {
    if ps != [] {
      var n := |ps| - 1;
      KeySetHas(ps[..n], key);
      if key in KeySet(ps[..n]) {
        var k :| 0 <= k < n && ps[..n][k].key == key;
        assert ps[k].key == key;
      }
      if k :| 0 <= k < |ps| && ps[k].key == key {
        if k < n { assert ps[..n][k].key == key; }
      }
    }
  }

  /** The number of different keys tells whether a key is repeated. */
  lemma {:induction false} KeySetSize(ps: seq<Pair>)
    ensures |KeySet(ps)| <= |ps|
    ensures |KeySet(ps)| == |ps| <==> UniqueKeys(ps)
    decreases |ps|
  {
    if ps != [] {
      var n := |ps| - 1;
      KeySetSize(ps[..n]);
      KeySetHas(ps[..n], ps[n].key);
      if UniqueKeys(ps) {
        assert forall i, j :: 0 <= i < j < n ==> ps[..n][i].key != ps[..n][j].key;
      }
      if ps[n].key in KeySet(ps[..n]) {
        var k :| 0 <= k < n && ps[..n][k].key == ps[n].key;
        assert ps[k].key == ps[n].key;
      } else if UniqueKeys(ps[..n]) {
        forall i, j | 0 <= i < j < |ps| ensures ps[i].key != ps[j].key {
          assert ps[..n][i].key == ps[i].key;
          if j < n { assert ps[..n][j].key == ps[j].key; }
        }
      }
    }
  }

  lemma {:induction false} SubsetSize(a: set<bytes>, b: set<bytes>)
    requires a <= b
    ensures |a| <= |b|
    ensures |a| == |b| ==> a == b
    decreases |b|
  {
    if x :| x in b && x !in a {
      SubsetSize(a, b - {x});
    } else {
      assert a == b;
    }
  }

  /** Pigeonhole: when every one of n different keys occurs among n pairs, those pairs have the same keys, each once. */
  lemma SameKeySet(ps: seq<Pair>, qs: seq<Pair>)
    requires UniqueKeys(ps) && |qs| == |ps| && forall k :: 0 <= k < |ps| ==> Find(qs, ps[k].key).Some?
    ensures UniqueKeys(qs)
    ensures forall j :: 0 <= j < |qs| ==> HasKey(ps, qs[j].key)
  {
    forall key | key in KeySet(ps) ensures key in KeySet(qs) {
      KeySetHas(ps, key);
      var k :| 0 <= k < |ps| && ps[k].key == key;
      FindNone(qs, ps[k].key);
      KeySetHas(qs, key);
    }
    KeySetSize(ps);
    KeySetSize(qs);
    SubsetSize(KeySet(ps), KeySet(qs));
    forall j | 0 <= j < |qs| ensures HasKey(ps, qs[j].key) {
      KeySetHas(qs, qs[j].key);
      KeySetHas(ps, qs[j].key);
    }
  }
}
