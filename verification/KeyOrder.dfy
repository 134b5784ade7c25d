/** The two key orders of json__key_cmp: by bytes, or by hash and then by bytes. */
module KeyOrder {
  import opened Base
  import opened Utf8

  /** memcmp over the common length, then the shorter key first. */
  function CompareBytes(a: bytes, b: bytes): (c: int)
    ensures -1 <= c <= 1
  {
    if a == [] then (if b == [] then 0 else -1)
    else if b == [] then 1
    else if a[0] != b[0] then (if a[0] < b[0] then -1 else 1)
    else CompareBytes(a[1..], b[1..])
  }

  datatype Key = Key(text: bytes, hash: nat)

  /** json__key_cmp. */
  function CompareKeys(lexical: bool, a: Key, b: Key): (c: int)
    ensures -1 <= c <= 1
  {
    if !lexical && a.hash != b.hash then (if a.hash < b.hash then -1 else 1)
    else CompareBytes(a.text, b.text)
  }

  lemma {:induction false} CompareBytesZero(a: bytes, b: bytes)
    ensures CompareBytes(a, b) == 0 <==> a == b
  {
    if a != [] && b != [] {
      CompareBytesZero(a[1..], b[1..]);
      assert a == [a[0]] + a[1..] && b == [b[0]] + b[1..];
    }
  }

  lemma {:induction false} CompareBytesFlip(a: bytes, b: bytes)
    ensures CompareBytes(b, a) == -CompareBytes(a, b)
  {
    if a != [] && b != [] { CompareBytesFlip(a[1..], b[1..]); }
  }

  lemma {:induction false} CompareBytesTransitive(a: bytes, b: bytes, c: bytes)
    requires CompareBytes(a, b) <= 0 && CompareBytes(b, c) <= 0
    ensures CompareBytes(a, c) <= 0
  {
    if a != [] && b != [] && c != [] && a[0] == b[0] == c[0] {
      CompareBytesTransitive(a[1..], b[1..], c[1..]);
    }
  }

  // ---------- the order, by places ----------

  /** `a` and `b` agree before place k; there `a` ends first or has the smaller byte. */
  predicate SmallerAt(a: bytes, b: bytes, k: nat) {
    && k <= |a| && k < |b| && (forall j :: 0 <= j < k ==> a[j] == b[j])
    && (k == |a| || a[k] < b[k])
  }

  /** `a` comes before `b` in the order of memcmp and then of length. */
  ghost predicate Before(a: bytes, b: bytes) { exists k: nat :: SmallerAt(a, b, k) }

  /** The comparison is exactly that order. */
  lemma {:induction false} CompareIsBefore(a: bytes, b: bytes)
    ensures CompareBytes(a, b) < 0 <==> Before(a, b)
  {
    if a != [] && b != [] && a[0] == b[0] {
      CompareIsBefore(a[1..], b[1..]);
      if k: nat :| SmallerAt(a[1..], b[1..], k) {
        forall j | 0 <= j < k + 1 ensures a[j] == b[j] { if j > 0 { assert a[1..][j - 1] == b[1..][j - 1]; } }
        assert SmallerAt(a, b, k + 1);
      }
      if k: nat :| SmallerAt(a, b, k) {
        assert k > 0;
        forall j | 0 <= j < k - 1 ensures a[1..][j] == b[1..][j] { assert a[j + 1] == b[j + 1]; }
        assert SmallerAt(a[1..], b[1..], k - 1);
      }
    } else {
      if CompareBytes(a, b) < 0 { assert SmallerAt(a, b, 0); }
      if k: nat :| SmallerAt(a, b, k) { assert k == 0; }
    }
  }

  /** The other comparator: the smaller hash first, and the byte order among equal hashes. */
  lemma HashedIsBefore(a: Key, b: Key)
    ensures CompareKeys(false, a, b) < 0 <==> a.hash < b.hash || (a.hash == b.hash && Before(a.text, b.text))
    ensures CompareKeys(true, a, b) < 0 <==> Before(a.text, b.text)
  {
    CompareIsBefore(a.text, b.text);
  }

  /** JsonSortCtx: the keys by pair index, and which order is in use. */
  datatype Ctx = Ctx(keyOf: nat -> Key, lexical: bool)

  /** json__key_cmp on pair indices. */
  function Cmp(ctx: Ctx, a: nat, b: nat): int {
    CompareKeys(ctx.lexical, ctx.keyOf(a), ctx.keyOf(b))
  }

  /** The key of pair `a` does not come after the key of pair `b`. */
  predicate Le(ctx: Ctx, a: nat, b: nat) { Cmp(ctx, a, b) <= 0 }

  /** json__key_cmp is a total preorder. */
  lemma LeOrder(ctx: Ctx)
    ensures forall a, b :: Le(ctx, a, b) || Le(ctx, b, a)
    ensures forall a, b :: Cmp(ctx, a, b) >= 0 <==> Le(ctx, b, a)
    ensures forall a, b, c :: Le(ctx, a, b) && Le(ctx, b, c) ==> Le(ctx, a, c)
  {
    forall a, b ensures (Le(ctx, a, b) || Le(ctx, b, a)) && (Cmp(ctx, a, b) >= 0 <==> Le(ctx, b, a)) {
      CompareBytesFlip(ctx.keyOf(a).text, ctx.keyOf(b).text);
    }
    forall a, b, c | Le(ctx, a, b) && Le(ctx, b, c) ensures Le(ctx, a, c) {
      var x, y, z := ctx.keyOf(a), ctx.keyOf(b), ctx.keyOf(c);
      if CompareBytes(x.text, y.text) <= 0 && CompareBytes(y.text, z.text) <= 0 {
        CompareBytesTransitive(x.text, y.text, z.text);
      }
    }
  }

  lemma LeTotal(ctx: Ctx, a: nat, b: nat)
    ensures Cmp(ctx, a, b) >= 0 <==> Le(ctx, b, a)
    ensures Cmp(ctx, a, b) <= 0 <==> Le(ctx, a, b)
    ensures Cmp(ctx, a, b) > 0 ==> Le(ctx, b, a)
    ensures Cmp(ctx, a, b) < 0 ==> Le(ctx, a, b)
  {
    LeOrder(ctx);
  }

  // ---------- characters ----------

  /** The byte order of encoded characters is the order of their code points. */
  lemma EncodingOrder(x: scalar, y: scalar)
    ensures CompareBytes(Encode(x), Encode(y)) < 0 <==> x < y
  {
    hide Encode, Before;
    if x < y {
      SmallerEncoding(x, y);
    } else if x > y {
      SmallerEncoding(y, x);
      CompareIsBefore(Encode(y), Encode(x));
      CompareBytesFlip(Encode(x), Encode(y));
    } else {
      CompareBytesZero(Encode(x), Encode(y));
    }
    CompareIsBefore(Encode(x), Encode(y));
  }

  lemma SmallerEncoding(x: scalar, y: scalar)
    requires x < y
    ensures Before(Encode(x), Encode(y))
  {
    hide Encode;
    var a, b, c, d := EncodingDigits(x);
    var e, f, g, h := EncodingDigits(y);
    AsciiIsItself(x);
    AsciiIsItself(y);
    assert SmallerAt(Encode(x), Encode(y), 0) || SmallerAt(Encode(x), Encode(y), 1)
        || SmallerAt(Encode(x), Encode(y), 2) || SmallerAt(Encode(x), Encode(y), 3);
  }
}
