/** What the arena keeps over every run of allocations, resets and trims, and the replay after a reset. */
module ArenaRuns {
  import opened Base
  import opened ArenaSpec

  // ---------- sums ----------

  lemma {:induction false} UsedSumUpdate(bs: seq<Block>, k: nat, used: nat)
    requires k < |bs|
    ensures UsedSum(bs[k := bs[k].(used := used)]) == UsedSum(bs) - bs[k].used + used
    decreases |bs|
  {
    var n := |bs| - 1;
    var cs := bs[k := bs[k].(used := used)];
    if k == n {
      assert cs[..n] == bs[..n];
    } else {
      UsedSumUpdate(bs[..n], k, used);
      assert cs[..n] == bs[..n][k := bs[k].(used := used)];
    }
  }

  lemma UsedSumSnoc(bs: seq<Block>, b: Block)
    ensures UsedSum(bs + [b]) == UsedSum(bs) + b.used
  {
    assert (bs + [b])[..|bs|] == bs;
  }

  lemma {:induction false} UsedSumZero(bs: seq<Block>)
    requires forall k :: 0 <= k < |bs| ==> bs[k].used == 0
    ensures UsedSum(bs) == 0
  {
    if bs != [] { UsedSumZero(bs[..|bs| - 1]); }
  }

  // ---------- one operation ----------

  /** A request that is served keeps the invariant; the granted region was free. */
  lemma BumpKeeps(s: State, k: nat, need: nat)
    requires ValidState(s) && s.current <= k < |s.blocks| && Room(s.blocks[k], need)
    requires Aligned(need, s.cfg.align) && need <= SIZE_MAX - s.total
    ensures ValidState(Bump(s, k, need))
  {
    UsedSumUpdate(s.blocks, k, s.blocks[k].used + need);
    var t := Bump(s, k, need);
    forall j | 0 <= j < |t.blocks|
      ensures t.blocks[j].used <= t.blocks[j].cap && Aligned(t.blocks[j].used, t.cfg.align)
    {
      if j == k { AlignedSum(s.blocks[k].used, need, s.cfg.align); }
    }
  }

  lemma AppendKeeps(s: State, cap: nat)
    requires ValidState(s)
    ensures ValidState(s.(blocks := s.blocks + [Block(cap, 0)]))
  {
    AlignedProduct(0, s.cfg.align);
    hide Aligned, UsedSum, ValidConfig;
    UsedSumSnoc(s.blocks, Block(cap, 0));
  }

  /** A new block has room for the request it was made for. */
  lemma NewBlockFits(c: Config, blockSize: nat, need: nat)
    requires ValidConfig(c) && need <= SIZE_MAX && blockSize <= SIZE_MAX
    ensures NewBlockCap(c, blockSize, need).Some? ==> NewBlockCap(c, blockSize, need).value >= need
  {}

  /** Every request keeps the invariant, and a request that is not served changes nothing. */
  lemma AllocKeeps(s: State, size: nat, granted: bool)
    requires ValidState(s) && size <= SIZE_MAX
    ensures var r := Alloc(s, size, granted);
      && ValidState(r.state)
      && (r.place.None? ==> r.state == s)
      && (r.calls > 0 ==> r.calls == 1 && |r.state.blocks| == |s.blocks| + (if granted then 1 else 0))
      && (r.calls == 0 ==> |r.state.blocks| == |s.blocks|)
  {
    if size > 0 && AlignUp(size, s.cfg.align) >= size && AlignUp(size, s.cfg.align) <= SIZE_MAX - s.total {
      var need := AlignUp(size, s.cfg.align);
      var k := FirstFit(s.blocks, s.current, need);
      if k < |s.blocks| {
        BumpKeeps(s, k, need);
      } else if NewBlockCap(s.cfg, s.blockSize, need).Some? && granted {
        var cap := NewBlockCap(s.cfg, s.blockSize, need).value;
        NewBlockFits(s.cfg, s.blockSize, need);
        AppendKeeps(s, cap);
        BumpKeeps(s.(blocks := s.blocks + [Block(cap, 0)]), k, need);
      }
    }
  }

  lemma ResetKeeps(s: State)
    requires |s.blocks| > 0 && ValidConfig(s.cfg) && s.cfg.header <= s.blockSize <= SIZE_MAX
    ensures ValidState(Reset(s))
  {
    UsedSumZero(Reset(s).blocks);
  }

  /** The number of bytes that a request takes does not wrap around, and neither does the total with them. */
  predicate Countable(s: State, size: nat)
    requires ValidState(s) && size <= SIZE_MAX
  {
    0 < size && size + (s.cfg.align - 1) <= SIZE_MAX && AlignUp(size, s.cfg.align) <= SIZE_MAX - s.total
  }

  /** The bytes of a new block with its header and the rounding do not wrap around. */
  predicate BlockCountable(s: State, need: nat)
    requires ValidState(s)
  {
    need + s.cfg.header + (s.cfg.align - 1) <= SIZE_MAX
  }

  /**
    * A request is refused exactly when a sum wraps around, or when no block from the current one on has
    * room and the backing allocator refuses; the allocator is asked exactly when no such block has room.
    */
  lemma AllocOutcome(s: State, size: nat, granted: bool)
    requires ValidState(s) && size <= SIZE_MAX
    ensures var r, need := Alloc(s, size, granted), AlignUp(size, s.cfg.align);
      var held := exists k :: s.current <= k < |s.blocks| && Room(s.blocks[k], need);
      && (r.place.Some? <==> Countable(s, size) && (held || (BlockCountable(s, need) && granted)))
      && (r.calls == 1 <==> Countable(s, size) && !held && BlockCountable(s, need))
      && r.calls <= 1
  {
    hide UsedSum;
    if Countable(s, size) {
      var need := AlignUp(size, s.cfg.align);
      var k := FirstFit(s.blocks, s.current, need);
      NewBlockSize(s.cfg, s.blockSize, need);
    }
  }

  /** A new block has the size of the arena's blocks if the request fits in one, otherwise the least aligned size. */
  lemma NewBlockSize(c: Config, blockSize: nat, need: nat)
    requires ValidConfig(c) && c.header <= blockSize <= SIZE_MAX && need <= SIZE_MAX
    ensures NewBlockCap(c, blockSize, need).Some? <==> need + c.header + (c.align - 1) <= SIZE_MAX
    ensures NewBlockCap(c, blockSize, need).Some? ==>
      var size := NewBlockCap(c, blockSize, need).value + c.header;
      if need + c.header <= blockSize then size == blockSize
      else Aligned(size, c.align) && need + c.header <= size < need + c.header + c.align
  {}

  /** What a request adds to the chain when it asks the backing allocator. */
  lemma AddedBlock(s: State, size: nat)
    requires ValidState(s) && size <= SIZE_MAX && Alloc(s, size, true).calls == 1
    ensures var t, need := Alloc(s, size, true).state, AlignUp(size, s.cfg.align);
      && |t.blocks| == |s.blocks| + 1 && t.current == |s.blocks| && t.blocks[..|s.blocks|] == s.blocks
      && t.blocks[|s.blocks|].used == need
      && var bytes := t.blocks[|s.blocks|].cap + s.cfg.header;
        if need + s.cfg.header <= s.blockSize then bytes == s.blockSize
        else
          Aligned(bytes, s.cfg.align)
          && need + s.cfg.header <= bytes < need + s.cfg.header + s.cfg.align
  {
    hide UsedSum;
    NewBlockSize(s.cfg, s.blockSize, AlignUp(size, s.cfg.align));
  }

  // ---------- the regions handed out since the last reset ----------

  datatype Region = Region(block: nat, offset: nat, size: nat)

  /** The region is aligned and inside the used part of its block. */
  predicate Inside(s: State, r: Region)
    requires s.cfg.align >= 1
  {
    r.block < |s.blocks| && r.size > 0 && Aligned(r.offset, s.cfg.align) && Aligned(r.size, s.cfg.align)
    && r.offset + r.size <= s.blocks[r.block].used <= s.blocks[r.block].cap
  }

  predicate Disjoint(a: Region, b: Region) {
    a.block != b.block || a.offset + a.size <= b.offset || b.offset + b.size <= a.offset
  }

  function Sizes(rs: seq<Region>): nat {
    if rs == [] then 0 else Sizes(rs[..|rs| - 1]) + rs[|rs| - 1].size
  }

  /** The live regions are aligned, in bounds and pairwise disjoint, and account for every used byte. */
  ghost predicate Live(s: State, rs: seq<Region>) {
    && ValidState(s)
    && (forall i :: 0 <= i < |rs| ==> Inside(s, rs[i]))
    && (forall i, j :: 0 <= i < j < |rs| ==> Disjoint(rs[i], rs[j]))
    && Sizes(rs) == s.total
  }

  datatype Event = AllocEvent(size: nat, granted: bool) | ResetEvent | TrimEvent

  /** An arena with the regions handed out since it was last reset. */
  datatype World = World(state: State, live: seq<Region>)

  function Step(w: World, e: Event): World
    requires ValidState(w.state) && (e.AllocEvent? ==> e.size <= SIZE_MAX)
  {
    match e
    case AllocEvent(size, granted) =>
      var r := Alloc(w.state, size, granted);
      World(r.state, if r.place.None? then w.live
                     else
                       w.live
                       + [Region(r.place.value.block, r.place.value.offset, AlignUp(size, w.state.cfg.align))])
    case ResetEvent => World(Reset(w.state), [])
    case TrimEvent => World(Trim(w.state), [])
  }

  /** What a successful request does, whichever block serves it. */
  lemma AllocPlace(s: State, size: nat, granted: bool)
    requires ValidState(s) && size <= SIZE_MAX && Alloc(s, size, granted).place.Some?
    ensures var r, need := Alloc(s, size, granted), AlignUp(size, s.cfg.align);
      var p, t := r.place.value, r.state;
      && need >= s.cfg.align && t.cfg == s.cfg && p.block < |t.blocks| && |s.blocks| <= |t.blocks|
      && t.blocks[p.block].used == p.offset + need <= t.blocks[p.block].cap
      && p.offset == (if p.block < |s.blocks| then s.blocks[p.block].used else 0)
      && (forall k :: 0 <= k < |s.blocks| && k != p.block ==> t.blocks[k] == s.blocks[k])
      && (p.block < |s.blocks| ==> t.blocks[p.block].cap == s.blocks[p.block].cap)
      && t.total == s.total + need && t.current == p.block && t.blockSize == s.blockSize
      && s.current <= p.block <= |s.blocks|
      && (forall k :: s.current <= k < p.block ==> !Room(s.blocks[k], need))
  {
    var need := AlignUp(size, s.cfg.align);
    LeastAligned(need, s.cfg.align);
    var k := FirstFit(s.blocks, s.current, need);
    if k == |s.blocks| { NewBlockFits(s.cfg, s.blockSize, need); }
  }

  lemma LiveAlloc(w: World, size: nat, granted: bool)
    requires Live(w.state, w.live) && size <= SIZE_MAX
    ensures Live(Step(w, AllocEvent(size, granted)).state, Step(w, AllocEvent(size, granted)).live)
  {
    hide Alloc, NewBlockCap, FirstFit, UsedSum;
    AllocKeeps(w.state, size, granted);
    var r := Alloc(w.state, size, granted);
    if r.place.Some? {
      AllocPlace(w.state, size, granted);
      var need, p, rs := AlignUp(size, w.state.cfg.align), r.place.value, w.live;
      var region := Region(p.block, p.offset, need);
      assert (rs + [region])[..|rs|] == rs;
      forall i | 0 <= i < |rs| ensures Inside(r.state, rs[i]) && Disjoint(rs[i], region) {
        assert Inside(w.state, rs[i]);
      }
      PlaceAligned(w.state, r, p);
    }
  }

  lemma PlaceAligned(s: State, r: Reply, p: Place)
    requires ValidState(s) && p.offset == (if p.block < |s.blocks| then s.blocks[p.block].used else 0)
    ensures Aligned(p.offset, s.cfg.align)
  {}

  /** Every operation keeps the live regions apart and accounted for. */
  lemma StepKeepsLive(w: World, e: Event)
    requires Live(w.state, w.live) && (e.AllocEvent? ==> e.size <= SIZE_MAX)
    ensures Live(Step(w, e).state, Step(w, e).live)
  {
    match e
    case AllocEvent(size, granted) => LiveAlloc(w, size, granted);
    case ResetEvent => ResetKeeps(w.state);
    case TrimEvent => ResetKeeps(w.state.(blocks := w.state.blocks[..1]));
  }

  ghost predicate Proper(es: seq<Event>) { forall k :: 0 <= k < |es| && es[k].AllocEvent? ==> es[k].size <= SIZE_MAX }

  ghost predicate Reaches(w: World, es: seq<Event>, w': World)
    requires Proper(es)
    decreases |es|
  {
    if es == [] then w' == w else ValidState(w.state) && Reaches(Step(w, es[0]), es[1..], w')
  }

  /** The arena invariant holds in every state reachable from a new arena. */
  lemma {:induction false} RunKeepsLive(w: World, es: seq<Event>, w': World)
    requires Proper(es) && Live(w.state, w.live) && Reaches(w, es, w')
    ensures Live(w'.state, w'.live)
    decreases |es|
  {
    if es != [] {
      StepKeepsLive(w, es[0]);
      RunKeepsLive(Step(w, es[0]), es[1..], w');
    }
  }

  lemma CreatedIsLive(c: Config, blockSize: nat)
    requires ValidConfig(c) && blockSize <= SIZE_MAX
    ensures Live(Created(c, blockSize), [])
  {
    UsedSumZero(Created(c, blockSize).blocks);
  }

  /** From json_arena_create, over every run of operations. */
  lemma EveryRunIsLive(c: Config, blockSize: nat, es: seq<Event>, w': World)
    requires ValidConfig(c) && blockSize <= SIZE_MAX && Proper(es) && Reaches(World(Created(c, blockSize), []), es, w')
    ensures Live(w'.state, w'.live)
  {
    CreatedIsLive(c, blockSize);
    RunKeepsLive(World(Created(c, blockSize), []), es, w');
  }

  // ---------- replay ----------

  /** A run of requests: final state, places in order, number of backing calls. */
  datatype Served = Served(state: State, places: seq<Option<Place>>, calls: nat)

  function Serve(s: State, sizes: seq<nat>, granted: bool): Served
    requires ValidState(s) && forall k :: 0 <= k < |sizes| ==> sizes[k] <= SIZE_MAX
    decreases |sizes|
  {
    if sizes == [] then Served(s, [], 0)
    else
      AllocKeeps(s, sizes[0], granted);
      var r := Alloc(s, sizes[0], granted);
      var rest := Serve(r.state, sizes[1..], granted);
      Served(rest.state, [r.place] + rest.places, r.calls + rest.calls)
  }

  /** Capacities and block order of `s` are an initial part of those of `t`. */
  ghost predicate Extends(s: State, t: State) {
    |s.blocks| <= |t.blocks| && forall k :: 0 <= k < |s.blocks| ==> s.blocks[k].cap == t.blocks[k].cap
  }

  /** `t` is `s` with unused blocks behind it: the chain that a longer run has built. */
  ghost predicate Shadow(s: State, t: State) {
    && |s.blocks| <= |t.blocks| && s.current == t.current && s.total == t.total && s.blockSize == t.blockSize
    && s.cfg == t.cfg
    && (forall k :: 0 <= k < |s.blocks| ==> t.blocks[k] == s.blocks[k])
    && (forall k :: |s.blocks| <= k < |t.blocks| ==> t.blocks[k].used == 0)
  }

  lemma {:induction false} ServeExtends(s: State, sizes: seq<nat>, granted: bool)
    requires ValidState(s) && forall k :: 0 <= k < |sizes| ==> sizes[k] <= SIZE_MAX
    ensures Extends(s, Serve(s, sizes, granted).state)
    decreases |sizes|
  {
    if sizes != [] {
      AllocKeeps(s, sizes[0], granted);
      AllocExtends(s, sizes[0], granted);
      ServeExtends(Alloc(s, sizes[0], granted).state, sizes[1..], granted);
    }
  }

  lemma AllocExtends(s: State, size: nat, granted: bool)
    requires ValidState(s) && size <= SIZE_MAX
    ensures Extends(s, Alloc(s, size, granted).state)
  {}

  /** A request served from a chain is served from its shadow at the same place, without a backing call. */
  lemma ReplayOne(s: State, t: State, size: nat, granted: bool)
    requires ValidState(s) && ValidState(t) && size <= SIZE_MAX && Shadow(s, t)
    requires Alloc(s, size, true).place.Some? && Extends(Alloc(s, size, true).state, t)
    ensures var a, b := Alloc(s, size, true), Alloc(t, size, granted);
      b.place == a.place && b.calls == 0 && Shadow(a.state, b.state)
  {
    AllocPlace(s, size, true);
    var need := AlignUp(size, s.cfg.align);
    var k := FirstFit(s.blocks, s.current, need);
    assert Room(t.blocks[k], need) by {
      if k == |s.blocks| { NewBlockFits(s.cfg, s.blockSize, need); }
    }
    FirstFitShadow(s, t, need, k);
  }

  lemma FirstFitShadow(s: State, t: State, need: nat, k: nat)
    requires ValidState(s) && Shadow(s, t) && s.current <= k < |t.blocks| && k <= |s.blocks| && Room(t.blocks[k], need)
    requires k == FirstFit(s.blocks, s.current, need)
    ensures FirstFit(t.blocks, t.current, need) == k
  {
    forall j | t.current <= j < k ensures !Room(t.blocks[j], need) {
      assert !Room(s.blocks[j], need);
    }
  }

  lemma {:induction false} ReplayFrom(s: State, t: State, sizes: seq<nat>, granted: bool)
    requires ValidState(s) && ValidState(t) && forall k :: 0 <= k < |sizes| ==> sizes[k] <= SIZE_MAX
    requires Shadow(s, t) && Extends(Serve(s, sizes, true).state, t)
    requires forall k :: 0 <= k < |Serve(s, sizes, true).places| ==> Serve(s, sizes, true).places[k].Some?
    ensures Serve(t, sizes, granted).places == Serve(s, sizes, true).places
    ensures Serve(t, sizes, granted).calls == 0
    ensures Shadow(Serve(s, sizes, true).state, Serve(t, sizes, granted).state)
    decreases |sizes|
  {
    hide *;
    if sizes == [] {
      ServeNothing(s, true);
      ServeNothing(t, granted);
    } else {
      ServeStep(s, sizes, true);
      ServeStep(t, sizes, granted);
      var a, b := Alloc(s, sizes[0], true), Alloc(t, sizes[0], granted);
      var whole, rest := Serve(s, sizes, true), Serve(a.state, sizes[1..], true);
      assert whole.places[0] == a.place;
      assert forall k :: 0 <= k < |rest.places| ==> rest.places[k] == whole.places[k + 1];
      ServeExtends(a.state, sizes[1..], true);
      ExtendsTransitive(a.state, whole.state, t);
      ReplayOne(s, t, sizes[0], granted);
      AllocExtends(t, sizes[0], granted);
      ExtendsTransitive(whole.state, t, b.state);
      ReplayFrom(a.state, b.state, sizes[1..], granted);
    }
  }

  lemma ServeNothing(s: State, granted: bool)
    requires ValidState(s)
    ensures Serve(s, [], granted) == Served(s, [], 0)
  {}

  lemma ServeStep(s: State, sizes: seq<nat>, granted: bool)
    requires ValidState(s) && sizes != [] && forall k :: 0 <= k < |sizes| ==> sizes[k] <= SIZE_MAX
    ensures ValidState(Alloc(s, sizes[0], granted).state)
    ensures var r := Alloc(s, sizes[0], granted);
      var rest := Serve(r.state, sizes[1..], granted);
      Serve(s, sizes, granted) == Served(rest.state, [r.place] + rest.places, r.calls + rest.calls)
  {
    AllocKeeps(s, sizes[0], granted);
    hide Alloc;
  }

  // ---------- how often the backing allocator is asked ----------

  /** The bytes that a run of requests takes. */
  function Needs(sizes: seq<nat>, align: nat): nat
    requires 1 <= align <= SIZE_MAX && forall k :: 0 <= k < |sizes| ==> sizes[k] <= SIZE_MAX
  {
    if sizes == [] then 0 else AlignUp(sizes[0], align) + Needs(sizes[1..], align)
  }

  function Free(s: State): nat
    requires ValidState(s)
  {
    s.blocks[s.current].cap - s.blocks[s.current].used
  }

  /** A request that the current block can hold is served there, or refused because a sum wraps around. */
  lemma ServedByCurrent(s: State, size: nat, granted: bool)
    requires ValidState(s) && size <= SIZE_MAX && AlignUp(size, s.cfg.align) <= Free(s)
    ensures var r := Alloc(s, size, granted);
      && ValidState(r.state) && r.calls == 0
      && r.state.blockSize == s.blockSize && r.state.cfg == s.cfg
      && Free(r.state) >= Free(s) - AlignUp(size, s.cfg.align)
      && (r.place.Some? <==> Countable(s, size))
      && (r.place.Some? ==>
            r.place.value.block == s.current && r.state.total == s.total + AlignUp(size, s.cfg.align))
  {
    hide UsedSum;
    AllocKeeps(s, size, granted);
    assert FirstFit(s.blocks, s.current, AlignUp(size, s.cfg.align)) == s.current;
  }

  /** Requests that the current block can hold together need no backing call. */
  lemma {:induction false} NoCall(s: State, sizes: seq<nat>, granted: bool)
    requires ValidState(s) && forall k :: 0 <= k < |sizes| ==> sizes[k] <= SIZE_MAX
    requires Needs(sizes, s.cfg.align) <= Free(s)
    ensures Serve(s, sizes, granted).calls == 0
    decreases |sizes|
  {
    hide Alloc, Free, ValidState, AlignUp;
    if sizes != [] {
      ServedByCurrent(s, sizes[0], granted);
      ServeStep(s, sizes, granted);
      NoCall(Alloc(s, sizes[0], granted).state, sizes[1..], granted);
    }
  }

  /**
    * Requests that fit together in one block of the arena's size make at most one backing call,
    * from every state of the arena.
    */
  lemma {:induction false} OneCall(s: State, sizes: seq<nat>)
    requires ValidState(s) && forall k :: 0 <= k < |sizes| ==> sizes[k] <= SIZE_MAX
    requires Needs(sizes, s.cfg.align) <= s.blockSize - s.cfg.header
    ensures Serve(s, sizes, true).calls <= 1
    decreases |sizes|
  {
    hide Alloc, ValidState, AlignUp;
    if sizes != [] {
      AllocKeeps(s, sizes[0], true);
      AllocOutcome(s, sizes[0], true);
      ServeStep(s, sizes, true);
      var r := Alloc(s, sizes[0], true);
      SameConfig(s, sizes[0], true);
      if r.calls == 0 {
        OneCall(r.state, sizes[1..]);
      } else {
        AddedBlock(s, sizes[0]);
        NoCall(r.state, sizes[1..], true);
      }
    }
  }

  lemma SameConfig(s: State, size: nat, granted: bool)
    requires ValidState(s) && size <= SIZE_MAX
    ensures Alloc(s, size, granted).state.cfg == s.cfg && Alloc(s, size, granted).state.blockSize == s.blockSize
  {}

  lemma ExtendsTransitive(s: State, t: State, u: State)
    requires Extends(s, t) && Extends(t, u)
    ensures Extends(s, u)
  {}

  /**
    * Replay: when a run of requests from a reset arena is served, resetting and issuing the same
    * requests gives each of them the same block and offset without a call to the backing allocator,
    * also when the first run appended blocks, and leads to the same state.
    */
  lemma Replay(s: State, sizes: seq<nat>, granted: bool)
    requires ValidState(s) && s == Reset(s)
    requires forall k :: 0 <= k < |sizes| ==> sizes[k] <= SIZE_MAX
    requires forall k :: 0 <= k < |Serve(s, sizes, true).places| ==> Serve(s, sizes, true).places[k].Some?
    ensures ValidState(Reset(Serve(s, sizes, true).state))
    ensures var first := Serve(s, sizes, true);
      var second := Serve(Reset(first.state), sizes, granted);
      second.places == first.places && second.calls == 0 && second.state == first.state
  {
    var first := Serve(s, sizes, true);
    ServeKeeps(s, sizes, true);
    ResetKeeps(first.state);
    ServeExtends(s, sizes, true);
    ReplayFrom(s, Reset(first.state), sizes, granted);
    SameLength(first.state, Reset(first.state), sizes, granted);
  }

  lemma {:induction false} ServeKeeps(s: State, sizes: seq<nat>, granted: bool)
    requires ValidState(s) && forall k :: 0 <= k < |sizes| ==> sizes[k] <= SIZE_MAX
    ensures ValidState(Serve(s, sizes, granted).state) && Serve(s, sizes, granted).state.blockSize == s.blockSize
    ensures Serve(s, sizes, granted).state.cfg == s.cfg
    ensures |Serve(s, sizes, granted).state.blocks| <= |s.blocks| + Serve(s, sizes, granted).calls
    decreases |sizes|
  {
    if sizes != [] {
      AllocKeeps(s, sizes[0], granted);
      ServeKeeps(Alloc(s, sizes[0], granted).state, sizes[1..], granted);
    }
  }

  /** A replay that needs no backing call ends with the chain it started from. */
  lemma SameLength(a: State, t: State, sizes: seq<nat>, granted: bool)
    requires ValidState(t) && (forall k :: 0 <= k < |sizes| ==> sizes[k] <= SIZE_MAX) && |a.blocks| == |t.blocks|
    requires Serve(t, sizes, granted).calls == 0 && Shadow(a, Serve(t, sizes, granted).state)
    ensures Serve(t, sizes, granted).state == a
  {
    ServeKeeps(t, sizes, granted);
    assert Serve(t, sizes, granted).state.blocks == a.blocks;
  }
}
