/** json__introsort and its parts, in place on an index array: order, permutation and cost. */
module Sort {
  import opened KeyOrder

  /** s[lo..hi] is in non-decreasing key order. */
  ghost predicate Sorted(ctx: Ctx, s: seq<nat>, lo: nat, hi: nat)
    requires hi <= |s|
  {
    forall x, y :: lo <= x < y < hi ==> Le(ctx, s[x], s[y])
  }

  /** t is s with the entries of [lo, hi) rearranged. */
  ghost predicate Permuted(s: seq<nat>, t: seq<nat>, lo: nat, hi: nat) {
    && lo <= hi <= |s| == |t|
    && multiset(s[lo..hi]) == multiset(t[lo..hi])
    && (forall k :: 0 <= k < lo ==> t[k] == s[k])
    && (forall k :: hi <= k < |s| ==> t[k] == s[k])
  }

  function Swap(s: seq<nat>, i: nat, j: nat): seq<nat>
    requires i < |s| && j < |s|
  {
    s[i := s[j]][j := s[i]]
  }

  lemma PermutedReflexive(s: seq<nat>, lo: nat, hi: nat)
    requires lo <= hi <= |s|
    ensures Permuted(s, s, lo, hi)
  {}

  lemma PermutedTransitive(s: seq<nat>, t: seq<nat>, u: seq<nat>, lo: nat, hi: nat)
    requires Permuted(s, t, lo, hi) && Permuted(t, u, lo, hi)
    ensures Permuted(s, u, lo, hi)
  {}

  lemma PermutedWider(s: seq<nat>, t: seq<nat>, lo: nat, hi: nat, lo': nat, hi': nat)
    requires Permuted(s, t, lo, hi) && lo' <= lo && hi <= hi' <= |s|
    ensures Permuted(s, t, lo', hi')
  {
    assert s[lo'..hi'] == s[lo'..lo] + s[lo..hi] + s[hi..hi'];
    assert t[lo'..hi'] == t[lo'..lo] + t[lo..hi] + t[hi..hi'];
    assert s[lo'..lo] == t[lo'..lo] && s[hi..hi'] == t[hi..hi'];
  }

  lemma SwapPermutes(s: seq<nat>, i: nat, j: nat, lo: nat, hi: nat)
    requires lo <= i <= j < hi <= |s|
    ensures Permuted(s, Swap(s, i, j), lo, hi)
  {
    hide Swap;
    SwapMultiset(s[lo..hi], i - lo, j - lo);
    SwapRange(s, i, j, lo, hi);
  }

  lemma SwapRange(s: seq<nat>, i: nat, j: nat, lo: nat, hi: nat)
    requires lo <= i <= j < hi <= |s|
    ensures var t := Swap(s, i, j);
      && |t| == |s| && t[lo..hi] == Swap(s[lo..hi], i - lo, j - lo)
      && (forall k :: 0 <= k < lo ==> t[k] == s[k]) && (forall k :: hi <= k < |s| ==> t[k] == s[k])
  {}

  lemma SwapMultiset(s: seq<nat>, i: nat, j: nat)
    requires i < |s| && j < |s|
    ensures multiset(Swap(s, i, j)) == multiset(s)
  {}

  /** Bounds on the entries of a range survive rearrangement of the range. */
  lemma PermutedBelow(ctx: Ctx, s: seq<nat>, t: seq<nat>, lo: nat, hi: nat, p: nat)
    requires Permuted(s, t, lo, hi)
    requires forall k :: lo <= k < hi ==> Le(ctx, s[k], p)
    ensures forall k :: lo <= k < hi ==> Le(ctx, t[k], p)
  {
    forall k | lo <= k < hi ensures Le(ctx, t[k], p) {
      assert t[k] == t[lo..hi][k - lo];
      assert t[k] in multiset(s[lo..hi]);
    }
  }

  lemma PermutedAbove(ctx: Ctx, s: seq<nat>, t: seq<nat>, lo: nat, hi: nat, p: nat)
    requires Permuted(s, t, lo, hi)
    requires forall k :: lo <= k < hi ==> Le(ctx, p, s[k])
    ensures forall k :: lo <= k < hi ==> Le(ctx, p, t[k])
  {
    forall k | lo <= k < hi ensures Le(ctx, p, t[k]) {
      assert t[k] == t[lo..hi][k - lo];
      assert t[k] in multiset(s[lo..hi]);
    }
  }

  // ---------- insertion sort ----------

  /** s[lo..hi] is sorted, except that entry j may be too small for the entries before it. */
  ghost predicate AlmostSorted(ctx: Ctx, s: seq<nat>, lo: nat, hi: nat, j: nat)
    requires hi <= |s|
  {
    forall x, y :: lo <= x < y < hi && y != j ==> Le(ctx, s[x], s[y])
  }

  /** g is a rearrangement of s on [lo, hi), sorted but for the entry at j that is being inserted. */
  ghost predicate Inserting(ctx: Ctx, s: seq<nat>, g: seq<nat>, lo: nat, hi: nat, j: nat) {
    Permuted(s, g, lo, hi) && AlmostSorted(ctx, g, lo, hi, j)
  }

  lemma InsertionStart(ctx: Ctx, s: seq<nat>, lo: nat, i: nat)
    requires lo < i < |s| && Sorted(ctx, s, lo, i)
    ensures Inserting(ctx, s, s, lo, i + 1, i)
  {}

  lemma InsertionStep(ctx: Ctx, s: seq<nat>, g: seq<nat>, lo: nat, hi: nat, j: nat)
    requires lo < j < hi <= |s| == |g| && Inserting(ctx, s, g, lo, hi, j) && Le(ctx, g[j], g[j - 1])
    ensures Inserting(ctx, s, Swap(g, j - 1, j), lo, hi, j - 1)
  {
    hide *;
    SwapPermutes(g, j - 1, j, lo, hi);
    HoleMoves(ctx, s, g, lo, hi, j);
    InsertionJoin(ctx, s, g, Swap(g, j - 1, j), lo, hi, j);
  }

  lemma InsertionJoin(ctx: Ctx, s: seq<nat>, g: seq<nat>, t: seq<nat>, lo: nat, hi: nat, j: nat)
    requires hi <= |t| && j >= 1 && Inserting(ctx, s, g, lo, hi, j) && Permuted(g, t, lo, hi)
      && AlmostSorted(ctx, t, lo, hi, j - 1)
    ensures Inserting(ctx, s, t, lo, hi, j - 1)
  {
    hide Permuted, AlmostSorted;
    PermutedTransitive(s, g, t, lo, hi);
  }

  lemma HoleMoves(ctx: Ctx, s: seq<nat>, g: seq<nat>, lo: nat, hi: nat, j: nat)
    requires lo < j < hi <= |g| && Inserting(ctx, s, g, lo, hi, j) && Le(ctx, g[j], g[j - 1])
    ensures |Swap(g, j - 1, j)| == |g|
    ensures AlmostSorted(ctx, Swap(g, j - 1, j), lo, hi, j - 1)
  {
    hide Le, Permuted;
    var t := Swap(g, j - 1, j);
    forall x, y | lo <= x < y < hi && y != j - 1 ensures Le(ctx, t[x], t[y]) {
      if y == j && x < j - 1 { assert Le(ctx, g[x], g[j - 1]); }
    }
  }

  lemma InsertionDone(ctx: Ctx, s: seq<nat>, g: seq<nat>, lo: nat, hi: nat, j: nat)
    requires lo <= j < hi <= |s| == |g| && Inserting(ctx, s, g, lo, hi, j)
    requires j == lo || Le(ctx, g[j - 1], g[j])
    ensures Permuted(s, g, lo, hi) && Sorted(ctx, g, lo, hi)
  {
    LeOrder(ctx);
    forall x, y | lo <= x < y < hi ensures Le(ctx, g[x], g[y]) {
      if y == j && x < j - 1 { assert Le(ctx, g[x], g[j - 1]); }
    }
  }

  /** json__isort on a[lo..hi]; `cmps` counts the key comparisons. */
  method InsertionSort(ctx: Ctx, a: array<nat>, lo: nat, hi: nat) returns (ghost cmps: nat)
    requires lo <= hi < a.Length
    modifies a
    ensures Permuted(old(a[..]), a[..], lo, hi + 1) && Sorted(ctx, a[..], lo, hi + 1)
    ensures 2 * cmps <= Triangle(hi - lo + 1)
  {
    hide *;
    cmps := 0;
    ghost var s := a[..];
    var i := lo + 1;
    FrontStart(ctx, s, lo, hi + 1);
    while i <= hi
      invariant lo + 1 <= i <= hi + 1 && FrontSorted(ctx, s, a[..], lo, i, hi + 1)
      invariant 2 * cmps <= Triangle(i - lo)
    {
      ghost var t := a[..];
      FrontParts(ctx, s, t, lo, i, hi + 1);
      ghost var c := Insert(ctx, a, lo, i);
      FrontStep(ctx, s, t, a[..], lo, i, hi + 1);
      TriangleStep(i - lo);
      cmps := cmps + c;
      i := i + 1;
    }
    FrontParts(ctx, s, a[..], lo, i, hi + 1);
  }

  /** t is s with [lo, hi) rearranged so that its part before i is sorted. */
  ghost predicate FrontSorted(ctx: Ctx, s: seq<nat>, t: seq<nat>, lo: nat, i: nat, hi: nat) {
    Permuted(s, t, lo, hi) && i <= hi && Sorted(ctx, t, lo, i)
  }

  lemma FrontStart(ctx: Ctx, s: seq<nat>, lo: nat, hi: nat)
    requires lo < hi <= |s|
    ensures FrontSorted(ctx, s, s, lo, lo + 1, hi) && Triangle(1) == 0
  {}

  lemma FrontParts(ctx: Ctx, s: seq<nat>, t: seq<nat>, lo: nat, i: nat, hi: nat)
    requires FrontSorted(ctx, s, t, lo, i, hi)
    ensures Permuted(s, t, lo, hi) && i <= hi <= |t| && Sorted(ctx, t, lo, i)
  {}

  lemma FrontStep(ctx: Ctx, s: seq<nat>, t: seq<nat>, u: seq<nat>, lo: nat, i: nat, hi: nat)
    requires FrontSorted(ctx, s, t, lo, i, hi) && i < hi <= |u|
    requires Permuted(t, u, lo, i + 1) && Sorted(ctx, u, lo, i + 1)
    ensures FrontSorted(ctx, s, u, lo, i + 1, hi)
  {
    hide Permuted, Sorted;
    SortingStep(s, t, u, lo, i + 1, hi);
  }

  lemma SortingStart(ctx: Ctx, s: seq<nat>, lo: nat, hi: nat)
    requires lo < hi <= |s|
    ensures Permuted(s, s, lo, hi) && Sorted(ctx, s, lo, lo + 1) && Triangle(1) == 0
  {}

  /** Rearranging part of the range keeps the whole range a rearrangement. */
  lemma SortingStep(s: seq<nat>, t: seq<nat>, u: seq<nat>, lo: nat, mid: nat, hi: nat)
    requires Permuted(s, t, lo, hi) && Permuted(t, u, lo, mid) && mid <= hi
    ensures Permuted(s, u, lo, hi)
  {
    PermutedWider(t, u, lo, mid, lo, hi);
  }

  lemma ThreeSteps(s: seq<nat>, t: seq<nat>, v: seq<nat>, u: seq<nat>, lo: nat, mid: nat, hi: nat)
    requires Permuted(s, t, lo, hi) && Permuted(t, v, lo, hi) && Permuted(v, u, lo, mid) && mid <= hi
    ensures Permuted(s, u, lo, hi)
  {
    hide Permuted;
    PermutedTransitive(s, t, v, lo, hi);
    SortingStep(s, v, u, lo, mid, hi);
  }

  ghost function Triangle(m: nat): int { m * (m - 1) }

  lemma TriangleStep(m: nat)
    ensures Triangle(m + 1) == Triangle(m) + 2 * m
  {}

  /** One pass of the outer loop: inserts a[i] into the sorted a[lo..i]. */
  method Insert(ctx: Ctx, a: array<nat>, lo: nat, i: nat) returns (ghost cmps: nat)
    requires lo < i < a.Length && Sorted(ctx, a[..], lo, i)
    modifies a
    ensures Permuted(old(a[..]), a[..], lo, i + 1) && Sorted(ctx, a[..], lo, i + 1)
    ensures cmps <= i - lo
  {
    hide Permuted, Sorted, AlmostSorted, Inserting, Le, Cmp;
    cmps := 0;
    var key, j := a[i], i;
    ghost var s := a[..];
    ghost var g := s;
    InsertionStart(ctx, s, lo, i);
    while j > lo
      invariant lo <= j <= i && |g| == a.Length && g[j] == key
      invariant forall k :: 0 <= k < a.Length && k != j ==> g[k] == a[k]
      invariant Inserting(ctx, s, g, lo, i + 1, j)
      invariant cmps <= i - j
    {
      cmps := cmps + 1;
      LeTotal(ctx, a[j - 1], key);
      if Cmp(ctx, a[j - 1], key) <= 0 { break; }
      InsertionStep(ctx, s, g, lo, i + 1, j);
      g := Swap(g, j - 1, j);
      a[j] := a[j - 1];
      j := j - 1;
    }
    InsertionDone(ctx, s, g, lo, i + 1, j);
    a[j] := key;
    assert a[..] == g;
  }

  // ---------- heapsort ----------

  /** json__ilog2. */
  function Ilog2(n: nat): nat { if n <= 1 then 0 else 1 + Ilog2(n / 2) }

  function Pow2(n: nat): (r: nat)
    ensures r > 0
  {
    if n == 0 then 1 else 2 * Pow2(n - 1)
  }

  /** The floor of the binary logarithm, by its defining bounds. */
  lemma {:induction false} Ilog2Bounds(n: nat)
    requires n >= 1
    ensures Pow2(Ilog2(n)) <= n < Pow2(Ilog2(n) + 1)
    decreases n
  {
    if n > 1 { Ilog2Bounds(n / 2); }
  }

  method ComputeIlog2(n: nat) returns (r: nat)
    ensures r == Ilog2(n)
    ensures n >= 1 ==> Pow2(r) <= n < Pow2(r + 1)
  {
    r := 0;
    var m := n;
    while m > 1
      invariant r + Ilog2(m) == Ilog2(n)
    {
      m, r := m / 2, r + 1;
    }
    if n >= 1 { Ilog2Bounds(n); }
  }

  lemma {:induction false} Ilog2Monotone(a: nat, b: nat)
    requires a <= b
    ensures Ilog2(a) <= Ilog2(b)
    decreases b
  {
    if a > 1 { Ilog2Monotone(a / 2, b / 2); }
  }

  function Parent(c: nat): nat
    requires c >= 1
  {
    (c - 1) / 2
  }

  /** Within s[lo..lo + end], every entry whose parent is `root` or later is no greater than its parent. */
  ghost predicate HeapFrom(ctx: Ctx, s: seq<nat>, lo: nat, root: nat, end: nat)
    requires lo + end < |s|
  {
    forall c :: 1 <= c <= end && root <= Parent(c) ==> Le(ctx, s[lo + c], s[lo + Parent(c)])
  }

  /** A heap but for the entry at `hole`, which is on its way down. */
  ghost predicate Sifting(ctx: Ctx, s: seq<nat>, lo: nat, root: nat, hole: nat, end: nat)
    requires lo + end < |s| && root <= hole <= end
  {
    && (forall c :: 1 <= c <= end && root <= Parent(c) && Parent(c) != hole ==>
          Le(ctx, s[lo + c], s[lo + Parent(c)]))
    && (hole > root ==>
          root <= Parent(hole) && forall c :: 1 <= c <= end && Parent(c) == hole ==>
            Le(ctx, s[lo + c], s[lo + Parent(hole)]))
  }

  lemma SiftStart(ctx: Ctx, s: seq<nat>, lo: nat, root: nat, end: nat)
    requires lo + end < |s| && root <= end && HeapFrom(ctx, s, lo, root + 1, end)
    ensures Sifting(ctx, s, lo, root, root, end)
  {}

  /** `child` is the greater child of `hole`. */
  ghost predicate GreaterChild(ctx: Ctx, s: seq<nat>, lo: nat, hole: nat, child: nat, end: nat)
    requires lo + end < |s|
  {
    && 1 <= child <= end && Parent(child) == hole
    && forall c :: 1 <= c <= end && Parent(c) == hole ==> Le(ctx, s[lo + c], s[lo + child])
  }

  lemma SiftStep(ctx: Ctx, s: seq<nat>, lo: nat, root: nat, hole: nat, child: nat, end: nat)
    requires lo + end < |s| && root <= hole <= end && Sifting(ctx, s, lo, root, hole, end)
    requires GreaterChild(ctx, s, lo, hole, child, end) && Le(ctx, s[lo + hole], s[lo + child])
    ensures hole < child && Sifting(ctx, Swap(s, lo + hole, lo + child), lo, root, child, end)
  {
    hide Le;
    var t := Swap(s, lo + hole, lo + child);
    forall c | 1 <= c <= end && root <= Parent(c) && Parent(c) != child
      ensures Le(ctx, t[lo + c], t[lo + Parent(c)])
    {
      assert c == child || c == hole || Parent(c) == hole || t[lo + c] == s[lo + c];
    }
    forall c | 1 <= c <= end && Parent(c) == child ensures Le(ctx, t[lo + c], t[lo + hole]) {
      assert Parent(c) != hole;
    }
  }

  lemma SiftDone(ctx: Ctx, s: seq<nat>, lo: nat, root: nat, hole: nat, end: nat)
    requires lo + end < |s| && root <= hole <= end && Sifting(ctx, s, lo, root, hole, end)
    requires forall c :: 1 <= c <= end && Parent(c) == hole ==> Le(ctx, s[lo + c], s[lo + hole])
    ensures HeapFrom(ctx, s, lo, root, end)
  {}

  /** Number of levels of the heap below position p. */
  ghost function Levels(p: nat, end: nat): nat
    decreases end - p
  {
    if 2 * p + 1 > end then 0 else 1 + Levels(2 * p + 1, end)
  }

  lemma {:induction false} LevelsMonotone(p: nat, q: nat, end: nat)
    requires p <= q
    ensures Levels(q, end) <= Levels(p, end)
    decreases end - q
  {
    if 2 * q + 1 <= end { LevelsMonotone(2 * p + 1, 2 * q + 1, end); }
  }

  lemma {:induction false} LevelsHalf(p: nat, end: nat)
    requires end >= 1
    ensures Levels(2 * p + 1, end) == Levels(p, (end - 1) / 2)
    decreases end - p
  {
    if 2 * p + 1 <= (end - 1) / 2 { LevelsHalf(2 * p + 1, end); }
  }

  /** A heap of m entries has Ilog2(m) levels below its root. */
  lemma {:induction false} LevelsOfHeap(root: nat, end: nat)
    ensures Levels(root, end) <= Ilog2(end + 1)
    decreases end
  {
    LevelsMonotone(0, root, end);
    if end >= 1 {
      LevelsHalf(0, end);
      LevelsOfHeap(0, (end - 1) / 2);
    }
  }

  /** json__sift_down on the heap a[lo..lo + end]. */
  method SiftDown(ctx: Ctx, a: array<nat>, lo: nat, root: nat, end: nat) returns (ghost cmps: nat)
    requires lo + end < a.Length && root <= end && HeapFrom(ctx, a[..], lo, root + 1, end)
    modifies a
    ensures Permuted(old(a[..]), a[..], lo, lo + end + 1) && HeapFrom(ctx, a[..], lo, root, end)
    ensures cmps <= 2 * Levels(root, end)
  {
    hide Permuted, HeapFrom, Sifting, InSift, GreaterChild, Le, Cmp;
    cmps := 0;
    var parent := root;
    ghost var s := a[..];
    InSiftStart(ctx, s, lo, root, end);
    while true
      invariant root <= parent <= end && InSift(ctx, s, a[..], lo, root, parent, end)
      invariant cmps + 2 * Levels(parent, end) <= 2 * Levels(root, end)
      decreases end - parent
    {
      ghost var t := a[..];
      var child := 2 * parent + 1;
      if child > end {
        NoChildren(ctx, s, t, lo, root, parent, end);
        break;
      }
      cmps := cmps + 2;
      ChooseChild(ctx, t, lo, parent, end);
      if child + 1 <= end && Cmp(ctx, a[lo + child], a[lo + child + 1]) < 0 {
        child := child + 1;
      }
      LeTotal(ctx, a[lo + parent], a[lo + child]);
      if Cmp(ctx, a[lo + parent], a[lo + child]) >= 0 {
        ChildBelow(ctx, s, t, lo, root, parent, child, end);
        break;
      }
      InSiftStep(ctx, s, t, lo, root, parent, child, end);
      LevelsMonotone(2 * parent + 1, child, end);
      a[lo + parent], a[lo + child] := a[lo + child], a[lo + parent];
      assert a[..] == Swap(t, lo + parent, lo + child);
      parent := child;
    }
  }

  /** t is s rearranged within the heap, with the entry at `hole` on its way down. */
  ghost predicate InSift(ctx: Ctx, s: seq<nat>, t: seq<nat>, lo: nat, root: nat, hole: nat, end: nat) {
    lo + end < |s| == |t| && root <= hole <= end && Permuted(s, t, lo, lo + end + 1)
    && Sifting(ctx, t, lo, root, hole, end)
  }

  lemma InSiftStart(ctx: Ctx, s: seq<nat>, lo: nat, root: nat, end: nat)
    requires lo + end < |s| && root <= end && HeapFrom(ctx, s, lo, root + 1, end)
    ensures InSift(ctx, s, s, lo, root, root, end)
  {
    SiftStart(ctx, s, lo, root, end);
  }

  lemma InSiftStep(ctx: Ctx, s: seq<nat>, t: seq<nat>, lo: nat, root: nat, hole: nat, child: nat, end: nat)
    requires InSift(ctx, s, t, lo, root, hole, end)
    requires GreaterChild(ctx, t, lo, hole, child, end) && Le(ctx, t[lo + hole], t[lo + child])
    ensures hole < child <= end && InSift(ctx, s, Swap(t, lo + hole, lo + child), lo, root, child, end)
  {
    hide Permuted, Sifting, Le;
    SiftStep(ctx, t, lo, root, hole, child, end);
    SwapPermutes(t, lo + hole, lo + child, lo, lo + end + 1);
    PermutedTransitive(s, t, Swap(t, lo + hole, lo + child), lo, lo + end + 1);
  }

  lemma NoChildren(ctx: Ctx, s: seq<nat>, t: seq<nat>, lo: nat, root: nat, hole: nat, end: nat)
    requires InSift(ctx, s, t, lo, root, hole, end) && 2 * hole + 1 > end
    ensures Permuted(s, t, lo, lo + end + 1) && HeapFrom(ctx, t, lo, root, end)
  {
    assert forall c :: 1 <= c <= end ==> Parent(c) != hole;
  }

  /** The comparison in json__sift_down picks the greater child. */
  lemma ChooseChild(ctx: Ctx, s: seq<nat>, lo: nat, hole: nat, end: nat)
    requires lo + end < |s| && 2 * hole + 1 <= end
    ensures var c := 2 * hole + 1;
      var child := if c + 1 <= end && Cmp(ctx, s[lo + c], s[lo + c + 1]) < 0 then c + 1 else c;
      GreaterChild(ctx, s, lo, hole, child, end)
  {
    var c := 2 * hole + 1;
    LeTotal(ctx, s[lo + c], s[lo + c]);
    if c + 1 <= end {
      LeTotal(ctx, s[lo + c], s[lo + c + 1]);
      LeTotal(ctx, s[lo + c + 1], s[lo + c + 1]);
    }
    assert forall d :: d >= 1 && Parent(d) == hole ==> d == c || d == c + 1;
  }

  lemma ChildBelow(ctx: Ctx, s: seq<nat>, t: seq<nat>, lo: nat, root: nat, hole: nat, child: nat, end: nat)
    requires InSift(ctx, s, t, lo, root, hole, end) && GreaterChild(ctx, t, lo, hole, child, end)
    requires Le(ctx, t[lo + child], t[lo + hole])
    ensures Permuted(s, t, lo, lo + end + 1) && HeapFrom(ctx, t, lo, root, end)
  {
    hide Permuted;
    LeOrder(ctx);
    hide Le;
    SiftDone(ctx, t, lo, root, hole, end);
  }

  /** Every entry of s[lo..mid] may stand before every entry of s[mid..hi]. */
  ghost predicate Split(ctx: Ctx, s: seq<nat>, lo: nat, mid: nat, hi: nat)
    requires hi <= |s|
  {
    forall x, y :: lo <= x < mid <= y < hi ==> Le(ctx, s[x], s[y])
  }

  /** The root of a heap is its greatest entry. */
  lemma {:induction false} HeapRootGreatest(ctx: Ctx, s: seq<nat>, lo: nat, end: nat, k: nat)
    requires lo + end < |s| && k <= end && HeapFrom(ctx, s, lo, 0, end)
    ensures Le(ctx, s[lo + k], s[lo])
    decreases k
  {
    LeOrder(ctx);
    if k >= 1 { HeapRootGreatest(ctx, s, lo, end, Parent(k)); }
  }

  /** a[lo..lo + i + 1] is a heap below the sorted rest of a[lo..hi]. */
  ghost predicate HeapAndTail(ctx: Ctx, s: seq<nat>, t: seq<nat>, lo: nat, i: nat, hi: nat) {
    && lo + i < hi <= |s| == |t| && Permuted(s, t, lo, hi)
    && HeapFrom(ctx, t, lo, 0, i) && Sorted(ctx, t, lo + i + 1, hi) && Split(ctx, t, lo, lo + i + 1, hi)
  }

  /** Moving the root behind the heap leaves everything below the root a heap. */
  lemma ExtractSwap(ctx: Ctx, t: seq<nat>, lo: nat, i: nat)
    requires lo + i < |t| && i >= 1 && HeapFrom(ctx, t, lo, 0, i)
    ensures HeapFrom(ctx, Swap(t, lo, lo + i), lo, 1, i - 1)
  {
    hide Le;
    var u := Swap(t, lo, lo + i);
    forall c | 1 <= c <= i - 1 && 1 <= Parent(c) ensures Le(ctx, u[lo + c], u[lo + Parent(c)]) {
      assert u[lo + c] == t[lo + c] && u[lo + Parent(c)] == t[lo + Parent(c)];
    }
  }

  /** What is left in the heap after the root has moved does not exceed the old root, nor the sorted rest. */
  lemma BelowRoot(ctx: Ctx, t: seq<nat>, u: seq<nat>, lo: nat, i: nat)
    requires i >= 1 && lo + i < |t| && HeapFrom(ctx, t, lo, 0, i) && Permuted(Swap(t, lo, lo + i), u, lo, lo + i)
    ensures forall x :: lo <= x < lo + i ==> Le(ctx, u[x], t[lo])
  {
    hide Le, HeapFrom, Permuted;
    var v := Swap(t, lo, lo + i);
    forall k | lo <= k < lo + i ensures Le(ctx, v[k], t[lo]) {
      HeapRootGreatest(ctx, t, lo, i, i);
      HeapRootGreatest(ctx, t, lo, i, k - lo);
    }
    PermutedBelow(ctx, v, u, lo, lo + i, t[lo]);
  }

  lemma BelowRest(ctx: Ctx, t: seq<nat>, u: seq<nat>, lo: nat, i: nat, hi: nat, y: nat)
    requires i >= 1 && lo + i < y < hi <= |t| && Split(ctx, t, lo, lo + i + 1, hi)
    requires Permuted(Swap(t, lo, lo + i), u, lo, lo + i)
    ensures forall x :: lo <= x < lo + i ==> Le(ctx, u[x], t[y])
  {
    hide Le, Permuted;
    PermutedBelow(ctx, Swap(t, lo, lo + i), u, lo, lo + i, t[y]);
  }

  lemma OutsideKept(s: seq<nat>, t: seq<nat>, lo: nat, hi: nat)
    requires Permuted(s, t, lo, hi)
    ensures |t| == |s| && forall y :: hi <= y < |s| ==> t[y] == s[y]
  {}

  /** After the root has been moved and the heap repaired, one more entry is in its final place. */
  lemma ExtractStep(ctx: Ctx, s: seq<nat>, t: seq<nat>, u: seq<nat>, lo: nat, i: nat, hi: nat)
    requires i >= 1 && HeapAndTail(ctx, s, t, lo, i, hi)
    requires |u| == |t| && Permuted(Swap(t, lo, lo + i), u, lo, lo + i) && HeapFrom(ctx, u, lo, 0, i - 1)
    ensures HeapAndTail(ctx, s, u, lo, i - 1, hi)
  {
    hide Le, HeapFrom, Permuted, Sorted, Split;
    ExtractTail(ctx, t, u, lo, i, hi);
    ExtractPermuted(s, t, u, lo, i, hi);
  }

  lemma ExtractTail(ctx: Ctx, t: seq<nat>, u: seq<nat>, lo: nat, i: nat, hi: nat)
    requires i >= 1 && lo + i < hi <= |t| == |u| && HeapFrom(ctx, t, lo, 0, i)
    requires Sorted(ctx, t, lo + i + 1, hi) && Split(ctx, t, lo, lo + i + 1, hi)
    requires Permuted(Swap(t, lo, lo + i), u, lo, lo + i)
    ensures Sorted(ctx, u, lo + i, hi) && Split(ctx, u, lo, lo + i, hi)
  {
    hide Le, HeapFrom, Permuted;
    BelowRoot(ctx, t, u, lo, i);
    OutsideKept(Swap(t, lo, lo + i), u, lo, lo + i);
    assert u[lo + i] == t[lo];
    forall y | lo + i < y < hi ensures u[y] == t[y] && forall x :: lo <= x < lo + i ==> Le(ctx, u[x], u[y]) {
      BelowRest(ctx, t, u, lo, i, hi, y);
    }
  }

  lemma ExtractPermuted(s: seq<nat>, t: seq<nat>, u: seq<nat>, lo: nat, i: nat, hi: nat)
    requires i >= 1 && lo + i < hi <= |t| && Permuted(s, t, lo, hi) && Permuted(Swap(t, lo, lo + i), u, lo, lo + i)
    ensures Permuted(s, u, lo, hi)
  {
    hide *;
    SwapPermutes(t, lo, lo + i, lo, hi);
    ThreeSteps(s, t, Swap(t, lo, lo + i), u, lo, lo + i, hi);
  }

  /** json__heapsort on a[lo..hi]. */
  method HeapSort(ctx: Ctx, a: array<nat>, lo: nat, hi: nat) returns (ghost cmps: nat)
    requires lo <= hi < a.Length
    modifies a
    ensures Permuted(old(a[..]), a[..], lo, hi + 1) && Sorted(ctx, a[..], lo, hi + 1)
    ensures cmps <= 3 * (hi - lo + 1) * Ilog2(hi - lo + 1)
  {
    hide Permuted, Sorted, HeapFrom, Ilog2;
    var n := hi - lo + 1;
    cmps := 0;
    ghost var s := a[..];
    SortingStart(ctx, s, lo, hi + 1);
    if n < 2 { return; }
    ghost var c := BuildHeap(ctx, a, lo, n);
    ghost var t := a[..];
    ghost var d := Extract(ctx, a, lo, n);
    SortingStep(s, t, a[..], lo, hi + 1, hi + 1);
    CostSum(n, Ilog2(n));
    cmps := c + d;
  }

  lemma CostSum(n: nat, l: nat)
    ensures n * l + 2 * n * l == 3 * n * l && n * l >= 0
  {}

  /** The loop that builds the heap. */
  method BuildHeap(ctx: Ctx, a: array<nat>, lo: nat, n: nat) returns (ghost cmps: nat)
    requires n >= 2 && lo + n <= a.Length
    modifies a
    ensures Permuted(old(a[..]), a[..], lo, lo + n) && HeapFrom(ctx, a[..], lo, 0, n - 1)
    ensures cmps <= n * Ilog2(n)
  {
    hide Permuted, HeapFrom, Ilog2, Twice;
    cmps := 0;
    CostHalf(n, Ilog2(n));
    ghost var s := a[..];
    var i := lo + n / 2;
    LeavesAreHeaps(ctx, s, lo, n);
    while i > lo
      invariant lo <= i <= lo + n / 2
      invariant Permuted(s, a[..], lo, lo + n) && HeapFrom(ctx, a[..], lo, i - lo, n - 1)
      invariant cmps <= Twice(lo + n / 2 - i, Ilog2(n))
    {
      i := i - 1;
      ghost var t := a[..];
      ghost var c := SiftDown(ctx, a, lo, i - lo, n - 1);
      SortingStep(s, t, a[..], lo, lo + n, lo + n);
      LevelsOfHeap(i - lo, n - 1);
      CostStep(cmps, c, lo + n / 2 - i, Ilog2(n));
      cmps := cmps + c;
    }
  }

  lemma LeavesAreHeaps(ctx: Ctx, s: seq<nat>, lo: nat, n: nat)
    requires n >= 2 && lo + n <= |s|
    ensures Permuted(s, s, lo, lo + n) && HeapFrom(ctx, s, lo, n / 2, n - 1)
  {
    assert forall c :: 1 <= c <= n - 1 ==> Parent(c) < n / 2;
  }

  lemma CostStep(cmps: nat, c: nat, k: nat, l: nat)
    requires k >= 1 && cmps <= Twice(k - 1, l) && c <= 2 * l
    ensures cmps + c <= Twice(k, l)
  {
    assert 2 * k * l == 2 * (k - 1) * l + 2 * l;
  }

  ghost function Twice(k: int, l: nat): int { 2 * k * l }

  lemma CostHalf(n: nat, l: nat)
    ensures Twice(0, l) == 0 && Twice(n / 2, l) <= n * l
  {}

  /** The loop that moves the greatest entry behind the heap. */
  method Extract(ctx: Ctx, a: array<nat>, lo: nat, n: nat) returns (ghost cmps: nat)
    requires n >= 2 && lo + n <= a.Length && HeapFrom(ctx, a[..], lo, 0, n - 1)
    modifies a
    ensures Permuted(old(a[..]), a[..], lo, lo + n) && Sorted(ctx, a[..], lo, lo + n)
    ensures cmps <= 2 * n * Ilog2(n)
  {
    hide Permuted, HeapFrom, HeapAndTail, Sorted, Ilog2, Twice;
    cmps := 0;
    CostLess(n, Ilog2(n));
    ghost var s := a[..];
    ExtractStart(ctx, s, lo, n);
    var i := n - 1;
    while i > 0
      invariant i < n && HeapAndTail(ctx, s, a[..], lo, i, lo + n)
      invariant cmps <= Twice(n - 1 - i, Ilog2(n))
    {
      ghost var c := ExtractOne(ctx, a, lo, i, s, lo + n);
      Ilog2Monotone(i, n);
      CostStep(cmps, c, n - i, Ilog2(n));
      cmps := cmps + c;
      i := i - 1;
    }
    ExtractEnd(ctx, s, a[..], lo, lo + n);
  }

  /** One turn of the extraction loop. */
  method ExtractOne(ctx: Ctx, a: array<nat>, lo: nat, i: nat, ghost s: seq<nat>, ghost hi: nat)
    returns (ghost cmps: nat)
    requires i >= 1 && HeapAndTail(ctx, s, a[..], lo, i, hi)
    modifies a
    ensures HeapAndTail(ctx, s, a[..], lo, i - 1, hi)
    ensures cmps <= 2 * Ilog2(i)
  {
    hide Permuted, HeapFrom, HeapAndTail, Sorted, Ilog2;
    ghost var t := a[..];
    TailHeap(ctx, s, t, lo, i, hi);
    a[lo], a[lo + i] := a[lo + i], a[lo];
    assert a[..] == Swap(t, lo, lo + i);
    ExtractSwap(ctx, t, lo, i);
    cmps := SiftDown(ctx, a, lo, 0, i - 1);
    ExtractStep(ctx, s, t, a[..], lo, i, hi);
    LevelsOfHeap(0, i - 1);
  }

  lemma CostLess(n: nat, l: nat)
    requires n >= 1
    ensures Twice(0, l) == 0 && Twice(n - 1, l) <= 2 * n * l
  {}

  lemma ExtractStart(ctx: Ctx, s: seq<nat>, lo: nat, n: nat)
    requires n >= 2 && lo + n <= |s| && HeapFrom(ctx, s, lo, 0, n - 1)
    ensures HeapAndTail(ctx, s, s, lo, n - 1, lo + n)
  {
    hide HeapFrom;
  }

  lemma TailHeap(ctx: Ctx, s: seq<nat>, t: seq<nat>, lo: nat, i: nat, hi: nat)
    requires HeapAndTail(ctx, s, t, lo, i, hi)
    ensures lo + i < |t| && HeapFrom(ctx, t, lo, 0, i)
  {}

  lemma ExtractEnd(ctx: Ctx, s: seq<nat>, t: seq<nat>, lo: nat, hi: nat)
    requires HeapAndTail(ctx, s, t, lo, 0, hi)
    ensures Permuted(s, t, lo, hi) && Sorted(ctx, t, lo, hi)
  {
    hide Permuted, Le;
  }

  // ---------- partition ----------

  /** The default of JSON_INTROSORT_THRESH; the sort is proved for every setting from 3 on. */
  const INTROSORT_THRESH: nat := 16

  /** Exchanges two entries of a range that is a rearrangement of s. */
  method SwapEntries(a: array<nat>, i: nat, j: nat, ghost s: seq<nat>, ghost lo: nat, ghost hi: nat)
    requires lo <= i <= j < hi <= a.Length && Permuted(s, a[..], lo, hi)
    modifies a
    ensures Permuted(s, a[..], lo, hi)
    ensures a[i] == old(a[j]) && a[j] == old(a[i])
    ensures forall k :: 0 <= k < a.Length && k != i && k != j ==> a[k] == old(a[k])
  {
    hide Permuted;
    ghost var t := a[..];
    SwapPermutes(t, i, j, lo, hi);
    PermutedTransitive(s, t, Swap(t, i, j), lo, hi);
    a[i], a[j] := a[j], a[i];
    assert a[..] == Swap(t, i, j);
  }

  /** One comparison of the median-of-three: puts two entries in order. */
  method CompareExchange(ctx: Ctx, a: array<nat>, i: nat, j: nat, ghost s: seq<nat>, ghost lo: nat, ghost hi: nat)
    returns (swapped: bool)
    requires lo <= i < j < hi <= a.Length && Permuted(s, a[..], lo, hi)
    modifies a
    ensures Permuted(s, a[..], lo, hi) && Le(ctx, a[i], a[j])
    ensures if swapped then a[i] == old(a[j]) && a[j] == old(a[i]) else a[i] == old(a[i]) && a[j] == old(a[j])
    ensures forall k :: 0 <= k < a.Length && k != i && k != j ==> a[k] == old(a[k])
  {
    hide Permuted, Le, Cmp;
    LeTotal(ctx, a[i], a[j]);
    swapped := Cmp(ctx, a[i], a[j]) > 0;
    if swapped { SwapEntries(a, i, j, s, lo, hi); }
  }

  /** Median-of-three: afterwards a[hi - 1] is the pivot, a[lo] and a[hi] are its sentinels. */
  method MedianOfThree(ctx: Ctx, a: array<nat>, lo: nat, hi: nat) returns (pivot: nat)
    requires lo + 3 <= hi < a.Length
    modifies a
    ensures Permuted(old(a[..]), a[..], lo, hi + 1)
    ensures a[hi - 1] == pivot && Le(ctx, a[lo], pivot) && Le(ctx, pivot, a[hi])
  {
    hide Permuted, Le, Cmp;
    ghost var s := a[..];
    PermutedReflexive(s, lo, hi + 1);
    var mid := lo + (hi - lo + 1) / 2;
    var b := CompareExchange(ctx, a, lo, mid, s, lo, hi + 1);
    LeTransitive(ctx, a[hi], a[lo], a[mid]);
    b := CompareExchange(ctx, a, lo, hi, s, lo, hi + 1);
    b := CompareExchange(ctx, a, mid, hi, s, lo, hi + 1);
    pivot := a[mid];
    SwapEntries(a, mid, hi - 1, s, lo, hi + 1);
  }

  lemma LeTransitive(ctx: Ctx, a: nat, b: nat, c: nat)
    ensures Le(ctx, a, b) && Le(ctx, b, c) ==> Le(ctx, a, c)
  {
    LeOrder(ctx);
  }

  /** The part of a[lo..hi] before i is at most the pivot, the part from j on at least the pivot. */
  ghost predicate Parted(ctx: Ctx, s: seq<nat>, lo: nat, i: nat, j: nat, hi: nat, pivot: nat)
    requires hi < |s|
  {
    && (forall k :: lo <= k < i && k <= hi ==> Le(ctx, s[k], pivot))
    && (forall k :: j <= k <= hi ==> Le(ctx, pivot, s[k]))
  }

  /** `while (cmp(arr[++i], pivot) < 0 && i < hi) {}` */
  method ScanUp(ctx: Ctx, a: array<nat>, lo: nat, i0: nat, j: nat, hi: nat, pivot: nat) returns (i: nat)
    requires lo <= i0 < j < hi < a.Length && Parted(ctx, a[..], lo, i0 + 1, j, hi, pivot)
    ensures i0 < i <= j && Parted(ctx, a[..], lo, i, j, hi, pivot) && Le(ctx, pivot, a[i])
  {
    hide Le, Cmp;
    i := i0 + 1;
    LeTotal(ctx, a[i], pivot);
    while Cmp(ctx, a[i], pivot) < 0 && i < hi
      invariant i0 < i <= j && Parted(ctx, a[..], lo, i, j, hi, pivot)
      invariant Cmp(ctx, a[i], pivot) >= 0 ==> Le(ctx, pivot, a[i])
      invariant Cmp(ctx, a[i], pivot) < 0 ==> Le(ctx, a[i], pivot) && i < j
      decreases hi - i
    {
      i := i + 1;
      LeTotal(ctx, a[i], pivot);
    }
  }

  /** `while (cmp(arr[--j], pivot) > 0 && j > lo) {}` */
  method ScanDown(ctx: Ctx, a: array<nat>, lo: nat, i: nat, j0: nat, hi: nat, pivot: nat) returns (j: nat)
    requires lo < i <= j0 < hi < a.Length && Parted(ctx, a[..], lo, i, j0, hi, pivot)
    ensures i - 1 <= j < j0 && Parted(ctx, a[..], lo, i, j + 1, hi, pivot) && Le(ctx, a[j], pivot)
  {
    hide Le, Cmp;
    j := j0 - 1;
    LeTotal(ctx, a[j], pivot);
    while Cmp(ctx, a[j], pivot) > 0 && j > lo
      invariant i - 1 <= j < j0 && Parted(ctx, a[..], lo, i, j + 1, hi, pivot)
      invariant Cmp(ctx, a[j], pivot) <= 0 ==> Le(ctx, a[j], pivot)
      invariant Cmp(ctx, a[j], pivot) > 0 ==> Le(ctx, pivot, a[j]) && i <= j
      decreases j
    {
      j := j - 1;
      LeTotal(ctx, a[j], pivot);
    }
  }

  lemma SwapParted(ctx: Ctx, s: seq<nat>, t: seq<nat>, lo: nat, i: nat, j: nat, hi: nat, pivot: nat)
    requires hi < |s| == |t| && lo < i < j < hi && Parted(ctx, s, lo, i, j + 1, hi, pivot)
    requires Le(ctx, pivot, s[i]) && Le(ctx, s[j], pivot)
    requires t[i] == s[j] && t[j] == s[i] && forall k :: 0 <= k < |s| && k != i && k != j ==> t[k] == s[k]
    ensures Parted(ctx, t, lo, i + 1, j, hi, pivot)
  {
    hide Le;
  }

  /** The partition loop: exchanges misplaced entries until the scans meet at i. */
  method PartitionLoop(ctx: Ctx, a: array<nat>, lo: nat, hi: nat, pivot: nat) returns (i: nat, ghost cmps: nat)
    requires lo + 3 <= hi < a.Length
    requires a[hi - 1] == pivot && Le(ctx, a[lo], pivot) && Le(ctx, pivot, a[hi])
    modifies a
    ensures Permuted(old(a[..]), a[..], lo, hi + 1) && a[hi - 1] == pivot
    ensures lo < i < hi && Parted(ctx, a[..], lo, i, i, hi, pivot) && cmps <= hi - lo
  {
    hide Permuted, Le, Cmp, Parted;
    ghost var s := a[..];
    PermutedReflexive(s, lo, hi + 1);
    PartedStart(ctx, s, lo, hi, pivot);
    i, cmps := lo, 0;
    var j := hi - 1;
    while true
      invariant lo <= i < j < hi && a[hi - 1] == pivot
      invariant Permuted(s, a[..], lo, hi + 1) && Parted(ctx, a[..], lo, i + 1, j, hi, pivot)
      invariant cmps == (i - lo) + (hi - 1 - j)
      decreases j - i
    {
      var i' := ScanUp(ctx, a, lo, i, j, hi, pivot);
      var j' := ScanDown(ctx, a, lo, i', j, hi, pivot);
      cmps := cmps + (i' - i) + (j - j');
      i, j := i', j';
      if i >= j { PartedMeet(ctx, a[..], lo, i, j, hi, pivot); break; }
      ghost var t := a[..];
      SwapEntries(a, i, j, s, lo, hi + 1);
      SwapParted(ctx, t, a[..], lo, i, j, hi, pivot);
    }
  }

  lemma PartedStart(ctx: Ctx, s: seq<nat>, lo: nat, hi: nat, pivot: nat)
    requires lo + 3 <= hi < |s| && s[hi - 1] == pivot && Le(ctx, s[lo], pivot) && Le(ctx, pivot, s[hi])
    ensures Parted(ctx, s, lo, lo + 1, hi - 1, hi, pivot)
  {
    LeTotal(ctx, pivot, pivot);
  }

  lemma PartedMeet(ctx: Ctx, s: seq<nat>, lo: nat, i: nat, j: nat, hi: nat, pivot: nat)
    requires hi < |s| && j <= i <= hi && Parted(ctx, s, lo, i, j + 1, hi, pivot) && Le(ctx, pivot, s[i])
    ensures Parted(ctx, s, lo, i, i, hi, pivot)
  {
    hide Le;
  }

  /** The partition of json__introsort: entries before i, the pivot at i, entries after i. */
  method Partition(ctx: Ctx, a: array<nat>, lo: nat, hi: nat) returns (i: nat, ghost cmps: nat)
    requires lo + 3 <= hi < a.Length
    modifies a
    ensures Permuted(old(a[..]), a[..], lo, hi + 1)
    ensures lo < i < hi && Parted(ctx, a[..], lo, i, i + 1, hi, a[i])
    ensures cmps <= hi - lo + 3
  {
    hide Permuted, Le, Cmp, Parted;
    ghost var s := a[..];
    var pivot := MedianOfThree(ctx, a, lo, hi);
    ghost var t := a[..];
    i, cmps := PartitionLoop(ctx, a, lo, hi, pivot);
    PermutedTransitive(s, t, a[..], lo, hi + 1);
    cmps := cmps + 3;
    t := a[..];
    SwapEntries(a, i, hi - 1, s, lo, hi + 1);
    PartedPivot(ctx, t, a[..], lo, i, hi, pivot);
  }

  lemma PartedPivot(ctx: Ctx, s: seq<nat>, t: seq<nat>, lo: nat, i: nat, hi: nat, pivot: nat)
    requires hi < |s| == |t| && lo < i < hi && Parted(ctx, s, lo, i, i, hi, pivot)
    requires t[i] == s[hi - 1] == pivot && t[hi - 1] == s[i]
    requires forall k :: 0 <= k < |s| && k != i && k != hi - 1 ==> t[k] == s[k]
    ensures Parted(ctx, t, lo, i, i + 1, hi, pivot)
  {
    hide Le;
  }

  // ---------- introsort ----------

  /** Outside [lo, e) the range [from, to) is in its final place. */
  ghost predicate Framed(ctx: Ctx, s: seq<nat>, from: nat, to: nat, lo: nat, e: nat)
    requires to <= |s|
  {
    && from <= lo <= e <= to
    && Sorted(ctx, s, from, lo) && Sorted(ctx, s, e, to)
    && Split(ctx, s, from, lo, to) && Split(ctx, s, from, e, to)
  }

  lemma FramedStart(ctx: Ctx, s: seq<nat>, lo: nat, e: nat)
    requires lo <= e <= |s|
    ensures Framed(ctx, s, lo, e, lo, e) && Permuted(s, s, lo, e)
  {}

  lemma FramedDone(ctx: Ctx, s: seq<nat>, from: nat, to: nat, lo: nat, e: nat)
    requires to <= |s| && Framed(ctx, s, from, to, lo, e) && Sorted(ctx, s, lo, e)
    ensures Sorted(ctx, s, from, to)
  {
    hide Le;
    forall x, y | from <= x < y < to ensures Le(ctx, s[x], s[y]) {}
  }

  /** Rearranging the unfinished part keeps the frame. */
  lemma FramedPermuted(ctx: Ctx, s: seq<nat>, t: seq<nat>, from: nat, to: nat, lo: nat, e: nat)
    requires to <= |s| && |t| == |s| && Framed(ctx, s, from, to, lo, e) && Permuted(s, t, lo, e)
    ensures Framed(ctx, t, from, to, lo, e)
  {
    hide Le;
    forall x, y | from <= x < lo <= y < to ensures Le(ctx, t[x], t[y]) {
      PermutedAbove(ctx, s, t, lo, e, s[x]);
    }
    forall x, y | from <= x < e <= y < to ensures Le(ctx, t[x], t[y]) {
      PermutedBelow(ctx, s, t, lo, e, s[y]);
    }
  }

  /** Once one side of a partition is sorted, only the other side is unfinished. */
  lemma FramedLeft(ctx: Ctx, s: seq<nat>, t: seq<nat>, from: nat, to: nat, lo: nat, i: nat, e: nat)
    requires to <= |s| == |t| && lo <= i < e && Framed(ctx, s, from, to, lo, e)
    requires Parted(ctx, s, lo, i, i + 1, e - 1, s[i])
    requires Permuted(s, t, lo, i) && Sorted(ctx, t, lo, i)
    ensures Framed(ctx, t, from, to, i + 1, e)
  {
    PermutedBelow(ctx, s, t, lo, i, s[i]);
    PermutedWider(s, t, lo, i, lo, e);
    FramedPermuted(ctx, s, t, from, to, lo, e);
    FramedParted(ctx, t, from, to, lo, i, e);
    hide Permuted, Le;
    forall x, y | from <= x < y < i + 1 ensures Le(ctx, t[x], t[y]) {}
  }

  lemma FramedRight(ctx: Ctx, s: seq<nat>, t: seq<nat>, from: nat, to: nat, lo: nat, i: nat, e: nat)
    requires to <= |s| == |t| && lo <= i < e && Framed(ctx, s, from, to, lo, e)
    requires Parted(ctx, s, lo, i, i + 1, e - 1, s[i])
    requires Permuted(s, t, i + 1, e) && Sorted(ctx, t, i + 1, e)
    ensures Framed(ctx, t, from, to, lo, i)
  {
    PermutedAbove(ctx, s, t, i + 1, e, s[i]);
    PermutedWider(s, t, i + 1, e, lo, e);
    FramedPermuted(ctx, s, t, from, to, lo, e);
    FramedParted(ctx, t, from, to, lo, i, e);
    hide Permuted, Le;
    forall x, y | i <= x < y < to ensures Le(ctx, t[x], t[y]) {}
  }

  /** A pivot in place divides the unfinished range. */
  lemma FramedParted(ctx: Ctx, t: seq<nat>, from: nat, to: nat, lo: nat, i: nat, e: nat)
    requires to <= |t| && lo <= i < e && Framed(ctx, t, from, to, lo, e)
    requires forall k :: lo <= k < i ==> Le(ctx, t[k], t[i])
    requires forall k :: i + 1 <= k < e ==> Le(ctx, t[i], t[k])
    ensures Split(ctx, t, from, i, to) && Split(ctx, t, from, i + 1, to)
  {
    forall x, y | from <= x < i + 1 <= y < to ensures Le(ctx, t[x], t[y]) {
      LeTransitive(ctx, t[x], t[i], t[y]);
    }
    forall x, y | from <= x < i <= y < to ensures Le(ctx, t[x], t[y]) {
      LeTransitive(ctx, t[x], t[i], t[y]);
    }
  }

  /** t is s rearranged within [from, to), and only [lo, e) is still unsorted. */
  ghost predicate Progress(ctx: Ctx, s: seq<nat>, t: seq<nat>, from: nat, to: nat, lo: nat, e: nat) {
    to <= |s| == |t| && Permuted(s, t, from, to) && Framed(ctx, t, from, to, lo, e)
  }

  lemma ProgressStart(ctx: Ctx, s: seq<nat>, lo: nat, e: nat)
    requires lo <= e <= |s|
    ensures Progress(ctx, s, s, lo, e, lo, e)
  {
    FramedStart(ctx, s, lo, e);
  }

  lemma ProgressDone(ctx: Ctx, s: seq<nat>, t: seq<nat>, u: seq<nat>, from: nat, to: nat, lo: nat, e: nat)
    requires Progress(ctx, s, t, from, to, lo, e) && |u| == |t| && e <= |u| && Permuted(t, u, lo, e)
      && Sorted(ctx, u, lo, e)
    ensures to <= |u| && Permuted(s, u, from, to) && Sorted(ctx, u, from, to)
  {
    PermutedWider(t, u, lo, e, from, to);
    PermutedTransitive(s, t, u, from, to);
    FramedPermuted(ctx, t, u, from, to, lo, e);
    FramedDone(ctx, u, from, to, lo, e);
  }

  lemma ProgressSingle(ctx: Ctx, s: seq<nat>, t: seq<nat>, from: nat, to: nat, lo: nat)
    requires Progress(ctx, s, t, from, to, lo, lo + 1)
    ensures Permuted(s, t, from, to) && Sorted(ctx, t, from, to)
  {
    FramedDone(ctx, t, from, to, lo, lo + 1);
  }

  lemma ProgressPartition(ctx: Ctx, s: seq<nat>, t: seq<nat>, u: seq<nat>, from: nat, to: nat, lo: nat, e: nat)
    requires Progress(ctx, s, t, from, to, lo, e) && |u| == |t| && Permuted(t, u, lo, e)
    ensures Progress(ctx, s, u, from, to, lo, e)
  {
    PermutedWider(t, u, lo, e, from, to);
    PermutedTransitive(s, t, u, from, to);
    FramedPermuted(ctx, t, u, from, to, lo, e);
  }

  lemma ProgressLeft(ctx: Ctx, s: seq<nat>, t: seq<nat>, u: seq<nat>, from: nat, to: nat, lo: nat, i: nat, e: nat)
    requires Progress(ctx, s, t, from, to, lo, e) && |u| == |t| && lo <= i < e && e <= |t|
    requires Parted(ctx, t, lo, i, i + 1, e - 1, t[i]) && Permuted(t, u, lo, i) && Sorted(ctx, u, lo, i)
    ensures Progress(ctx, s, u, from, to, i + 1, e)
  {
    hide Le;
    FramedLeft(ctx, t, u, from, to, lo, i, e);
    PermutedWider(t, u, lo, i, from, to);
    PermutedTransitive(s, t, u, from, to);
  }

  lemma ProgressRight(ctx: Ctx, s: seq<nat>, t: seq<nat>, u: seq<nat>, from: nat, to: nat, lo: nat, i: nat, e: nat)
    requires Progress(ctx, s, t, from, to, lo, e) && |u| == |t| && lo <= i < e && e <= |t|
    requires Parted(ctx, t, lo, i, i + 1, e - 1, t[i]) && Permuted(t, u, i + 1, e) && Sorted(ctx, u, i + 1, e)
    ensures Progress(ctx, s, u, from, to, lo, i)
  {
    hide Le;
    FramedRight(ctx, t, u, from, to, lo, i, e);
    PermutedWider(t, u, i + 1, e, from, to);
    PermutedTransitive(s, t, u, from, to);
  }

  /** Comparisons allowed for m entries with `depth` partitions to go, when m is at most 2^(logn + 1) - 1. */
  ghost function Budget(thresh: nat, m: nat, depth: nat, logn: nat): nat {
    m * (2 * depth + thresh / 2 + 3 * logn)
  }

  /** A partition pays for both its sides. */
  lemma BudgetSplit(thresh: nat, m: nat, l: nat, r: nat, depth: nat, logn: nat, c: nat)
    requires l + r + 1 == m && m >= 2 && depth >= 1 && c <= m + 2
    ensures c + Budget(thresh, l, depth - 1, logn) + Budget(thresh, r, depth - 1, logn)
      <= Budget(thresh, m, depth, logn)
  {
    var k := 2 * (depth - 1) + thresh / 2 + 3 * logn;
    Distribute(l, r, k);
    Distribute(l + r, 1, k);
    assert m * (k + 2) == m * k + 2 * m;
  }

  lemma Distribute(a: nat, b: nat, k: nat)
    ensures a * k + b * k == (a + b) * k
  {}

  lemma MulLe(a: nat, b: nat, k: nat)
    requires a <= b
    ensures a * k <= b * k
  {}

  lemma BudgetLeaf(thresh: nat, m: nat, depth: nat, logn: nat, c: nat)
    requires 2 * c <= Triangle(m) && 1 <= m <= thresh
    ensures c <= Budget(thresh, m, depth, logn)
  {
    MulLe(m - 1, 2 * (thresh / 2), m);
    Distribute(thresh / 2, 2 * depth + 3 * logn, m);
  }

  lemma BudgetHeap(thresh: nat, m: nat, depth: nat, logn: nat, c: nat)
    requires c <= 3 * m * Ilog2(m) && Ilog2(m) <= logn
    ensures c <= Budget(thresh, m, depth, logn)
  {
    hide Ilog2;
    MulLe(Ilog2(m), logn, m);
    Distribute(2 * depth + thresh / 2, 3 * logn, m);
  }

  /** The two ways a range is finished without partitioning. */
  method SortLeaf(ctx: Ctx, thresh: nat, a: array<nat>, lo: nat, hi: nat, depth: nat, ghost logn: nat)
    returns (ghost cmps: nat)
    requires lo <= hi < a.Length && Ilog2(hi - lo + 1) <= logn
    requires hi - lo + 1 <= thresh || depth == 0
    modifies a
    ensures Permuted(old(a[..]), a[..], lo, hi + 1) && Sorted(ctx, a[..], lo, hi + 1)
    ensures cmps <= Budget(thresh, hi - lo + 1, depth, logn)
  {
    hide Permuted, Sorted, Ilog2, Budget, Triangle;
    if hi - lo + 1 <= thresh {
      cmps := InsertionSort(ctx, a, lo, hi);
      BudgetLeaf(thresh, hi - lo + 1, depth, logn, cmps);
    } else {
      cmps := HeapSort(ctx, a, lo, hi);
      BudgetHeap(thresh, hi - lo + 1, depth, logn, cmps);
    }
  }

  /** Recursing into the smaller side goes one logarithm deeper at most. */
  lemma SmallerSide(small: nat, m: nat)
    requires 1 <= small && 2 * small < m
    ensures 1 + Ilog2(small) <= Ilog2(m)
  {
    Ilog2Monotone(2 * small, m);
  }

  /**
    * json__introsort on a[lo..hi]: whichever of quicksort, heapsort and insertion sort handles each
    * part, the range ends up sorted and rearranged. `cmps` counts key comparisons, `nested` the
    * frames of recursion below this one.
    */
  method Introsort(ctx: Ctx, thresh: nat, a: array<nat>, from: nat, last: nat, limit: nat, ghost logn: nat)
    returns (ghost cmps: nat, ghost nested: nat)
    requires thresh >= 3 && from <= last < a.Length && Ilog2(last - from + 1) <= logn
    modifies a
    ensures Permuted(old(a[..]), a[..], from, last + 1) && Sorted(ctx, a[..], from, last + 1)
    ensures cmps <= Budget(thresh, last - from + 1, limit, logn)
    ensures nested <= Ilog2(last - from + 1)
    decreases last - from, 1
  {
    hide Permuted, Sorted, Framed, Progress, Parted, Ilog2, Budget, Le;
    cmps, nested := 0, 0;
    var lo, hi, depth := from, last, limit;
    ghost var s := a[..];
    ProgressStart(ctx, s, from, last + 1);
    while lo < hi
      invariant from <= lo <= hi <= last && Progress(ctx, s, a[..], from, last + 1, lo, hi + 1)
      invariant cmps + Budget(thresh, hi - lo + 1, depth, logn) <= Budget(thresh, last - from + 1, limit, logn)
      invariant nested <= Ilog2(last - from + 1)
      decreases hi - lo
    {
      ghost var t := a[..];
      var span := hi - lo + 1;
      Ilog2Monotone(span, last - from + 1);
      if span <= thresh || depth == 0 {
        ghost var c := SortLeaf(ctx, thresh, a, lo, hi, depth, logn);
        ProgressDone(ctx, s, t, a[..], from, last + 1, lo, hi + 1);
        cmps := cmps + c;
        return;
      }
      ghost var c, f;
      lo, hi, c, f := Divide(ctx, thresh, a, lo, hi, depth, logn, s, from, last + 1);
      cmps := cmps + c;
      nested := if nested < f then f else nested;
      depth := depth - 1;
    }
    ProgressSingle(ctx, s, a[..], from, last + 1, lo);
  }

  /** One turn of the loop of json__introsort: partitions, sorts the smaller side, keeps the larger one. */
  method Divide(ctx: Ctx, thresh: nat, a: array<nat>, lo: nat, hi: nat, depth: nat, ghost logn: nat,
                ghost s: seq<nat>, ghost from: nat, ghost to: nat)
    returns (lo': nat, hi': nat, ghost cmps: nat, ghost nested: nat)
    requires hi < a.Length && hi - lo + 1 > thresh >= 3 && depth > 0 && Ilog2(hi - lo + 1) <= logn
    requires Progress(ctx, s, a[..], from, to, lo, hi + 1)
    modifies a
    ensures lo <= lo' <= hi' <= hi && hi' - lo' < hi - lo
    ensures Progress(ctx, s, a[..], from, to, lo', hi' + 1)
    ensures cmps + Budget(thresh, hi' - lo' + 1, depth - 1, logn) <= Budget(thresh, hi - lo + 1, depth, logn)
    ensures nested <= Ilog2(hi - lo + 1)
    decreases hi - lo, 0
  {
    hide Permuted, Sorted, Framed, Progress, Parted, Ilog2, Budget, Le;
    ghost var t := a[..];
    var i;
    ghost var c, d, f;
    i, c := Partition(ctx, a, lo, hi);
    ghost var u := a[..];
    ProgressPartition(ctx, s, t, u, from, to, lo, hi + 1);
    BudgetSplit(thresh, hi - lo + 1, i - lo, hi - i, depth, logn, c);
    if i - lo < hi - i {
      SmallerSide(i - lo, hi - lo + 1);
      d, f := Introsort(ctx, thresh, a, lo, i - 1, depth - 1, logn);
      ProgressLeft(ctx, s, u, a[..], from, to, lo, i, hi + 1);
      lo', hi' := i + 1, hi;
    } else {
      SmallerSide(hi - i, hi - lo + 1);
      d, f := Introsort(ctx, thresh, a, i + 1, hi, depth - 1, logn);
      ProgressRight(ctx, s, u, a[..], from, to, lo, i, hi + 1);
      lo', hi' := lo, i - 1;
    }
    cmps := c + d;
    nested := 1 + f;
  }

  /** The constant of the cost bound: 8 for the default threshold. */
  function Factor(thresh: nat): nat { if thresh / 2 > 7 then thresh / 2 else 7 }

  /** The whole sort with the depth limit that json__obj_sort and json__write_value give it. */
  method SortIndices(ctx: Ctx, thresh: nat, a: array<nat>, len: nat) returns (ghost cmps: nat, ghost nested: nat)
    requires 1 <= len <= a.Length && thresh >= 3
    modifies a
    ensures Permuted(old(a[..]), a[..], 0, len) && Sorted(ctx, a[..], 0, len)
    ensures cmps <= Factor(thresh) * len * (Ilog2(len) + 1)
    ensures nested <= Ilog2(len)
  {
    hide Permuted, Sorted, Ilog2, Budget;
    var l := ComputeIlog2(len);
    cmps, nested := Introsort(ctx, thresh, a, 0, len - 1, 2 * l, l);
    BudgetTotal(thresh, len, l);
  }

  lemma BudgetTotal(thresh: nat, n: nat, l: nat)
    ensures Budget(thresh, n, 2 * l, l) <= Factor(thresh) * n * (l + 1)
  {
    MulLe(7 * l + thresh / 2, Factor(thresh) * (l + 1), n);
  }
}
