/** The arena allocator itself: a linked chain of blocks, bumped, reset and trimmed in place. */
module Arena {
  import opened Base
  import opened ArenaRuns
  import Spec = ArenaSpec

  /** JsonArenaBlock; the memory behind the header is not represented. */
  class Block {
    var next: Block?
    var cap: nat
    var used: nat

    constructor (cap: nat)
      ensures this.cap == cap && used == 0 && next == null
    {
      this.cap, used, next := cap, 0, null;
    }
  }

  /** json__block_new; `granted` is the answer of the backing allocator. */
  method BlockNew(c: Spec.Config, blockSize: nat, need: nat, granted: bool) returns (block: Block?, calls: nat)
    requires Spec.ValidConfig(c) && c.header <= blockSize <= SIZE_MAX && need <= SIZE_MAX
    ensures calls == if Spec.NewBlockCap(c, blockSize, need).Some? then 1 else 0
    ensures block != null <==> Spec.NewBlockCap(c, blockSize, need).Some? && granted
    ensures block != null ==> fresh(block) && block.next == null && block.used == 0
    ensures block != null ==> Spec.NewBlockCap(c, blockSize, need) == Some(block.cap)
  {
    if need > SIZE_MAX - c.header || need + c.header > SIZE_MAX - (c.align - 1) {
      return null, 0;
    }
    var size := if need + c.header > blockSize then Spec.AlignUp(need + c.header, c.align) else blockSize;
    if !granted { return null, 1; }
    block := new Block(size - c.header);
    calls := 1;
  }

  lemma FirstFitIs(blocks: seq<Spec.Block>, start: nat, k: nat, need: nat)
    requires start <= k <= |blocks| && (k < |blocks| ==> Spec.Room(blocks[k], need))
    requires forall j :: start <= j < k ==> !Spec.Room(blocks[j], need)
    ensures Spec.FirstFit(blocks, start, need) == k
  {}

  /** JsonArena. `chain` and `state` are the blocks in order and the abstract state they represent. */
  class Arena {
    const cfg: Spec.Config
    var first: Block
    var current: Block
    var blockSize: nat
    var total: nat
    var nodeCount: nat
    ghost var chain: seq<Block>
    ghost var state: Spec.State

    ghost predicate Valid()
      reads this, chain
    {
      && Linked() && Reflects() && Spec.ValidState(state)
    }

    /** `next` pointers run through `chain`, from `first` to the end, without a repetition. */
    ghost predicate Linked()
      reads this, chain
    {
      && |chain| > 0 && first == chain[0]
      && (forall k {:trigger chain[k].next} :: 0 <= k < |chain| ==>
            chain[k].next == if k + 1 < |chain| then chain[k + 1] else null)
      && (forall i, j :: 0 <= i < j < |chain| ==> chain[i] != chain[j])
    }

    ghost predicate Reflects()
      reads this, chain
    {
      && |state.blocks| == |chain| && state.current < |chain| && current == chain[state.current]
      && state.total == total && state.blockSize == blockSize && state.cfg == cfg
      && (forall k :: 0 <= k < |chain| ==> state.blocks[k] == Spec.Block(chain[k].cap, chain[k].used))
    }

    constructor Empty(c: Spec.Config, first: Block, blockSize: nat, ghost s: Spec.State)
      requires first.next == null
      requires s == Spec.State([Spec.Block(first.cap, first.used)], 0, 0, blockSize, c) && Spec.ValidState(s)
      ensures Valid() && state == s && chain == [first] && nodeCount == 0
    {
      this.first, current, this.blockSize, total, nodeCount := first, first, blockSize, 0, 0;
      cfg := c;
      chain, state := [first], s;
    }

    /**
      * json_arena_create; the two flags say whether the backing allocator grants its two calls.
      * `released` says that the arena header has been given back.
      */
    static method Create(c: Spec.Config, blockSize: nat, arenaGranted: bool, blockGranted: bool)
      returns (arena: Arena?, released: bool)
      requires Spec.ValidConfig(c) && blockSize <= SIZE_MAX
      ensures arena != null <==> arenaGranted && blockGranted
      ensures released <==> arenaGranted && !blockGranted
      ensures arena != null ==> fresh(arena) && arena.Valid() && fresh(arena.chain)
      ensures arena != null ==> arena.state == Spec.Created(c, blockSize) && arena.nodeCount == 0
    {
      var size := if blockSize == 0 then 65536 else blockSize;
      if size < c.minBlock { size := c.minBlock; }
      if !arenaGranted { return null, false; }
      var block, _ := BlockNew(c, size, 0, blockGranted);
      if block == null { return null, true; }
      CreatedIsLive(c, blockSize);
      arena := new Arena.Empty(c, block, size, Spec.Created(c, blockSize));
      released := false;
    }

    /** The loop of json__arena_alloc_raw: from `current` on, stop at a block with room or at the last one. */
    method FindBlock(need: nat) returns (block: Block, ghost k: nat)
      requires Valid() && need > current.cap - current.used
      ensures state.current <= k < |chain| && block == chain[k]
      ensures need <= block.cap - block.used ==> k == Spec.FirstFit(state.blocks, state.current, need)
      ensures need > block.cap - block.used ==>
        k == |chain| - 1 && Spec.FirstFit(state.blocks, state.current, need) == |chain|
    {
      block, k := current, state.current;
      while block.next != null
        invariant state.current <= k < |chain| && block == chain[k]
        invariant forall j :: state.current <= j <= k ==> !Spec.Room(state.blocks[j], need)
        decreases |chain| - k
      {
        block, k := block.next, k + 1;
        if need <= block.cap - block.used {
          break;
        }
      }
      FirstFitIs(state.blocks, state.current, if need <= block.cap - block.used then k else k + 1, need);
    }

    /** The bump: `need` bytes of block number `k` become used. */
    method Take(block: Block, need: nat, ghost k: nat) returns (offset: nat)
      requires Valid() && state.current <= k < |chain| && block == chain[k] && Spec.Room(state.blocks[k], need)
      requires Spec.Aligned(need, cfg.align) && need <= SIZE_MAX - total
      modifies this`current, this`total, this`state, block`used
      ensures Valid() && state == Spec.Bump(old(state), k, need)
      ensures offset == old(block.used)
    {
      BumpKeeps(state, k, need);
      state := Spec.Bump(state, k, need);
      current := block;
      offset := block.used;
      block.used := block.used + need;
      total := total + need;
    }

    /** Links a new block behind the last one. */
    method Append(last: Block, added: Block)
      requires Valid() && last == chain[|chain| - 1] && added !in chain && added.next == null && added.used == 0
      modifies this`chain, this`state, chain
      ensures Valid() && chain == old(chain) + [added]
      ensures state == old(state).(blocks := old(state).blocks + [Spec.Block(added.cap, 0)])
    {
      AppendKeeps(state, added.cap);
      state := state.(blocks := state.blocks + [Spec.Block(added.cap, 0)]);
      chain := chain + [added];
      last.next := added;
    }

    /** The choice in json__arena_alloc_raw: the current block, a retained one with room, or a new one. */
    method Locate(need: nat, granted: bool) returns (block: Block?, calls: nat, ghost k: nat)
      requires Valid() && need <= SIZE_MAX && Spec.Aligned(need, cfg.align)
      modifies this`chain, this`state, chain
      ensures Valid() && old(chain) <= chain && fresh(chain[|old(chain)|..])
      ensures block != null ==> block in old(chain) || fresh(block)
      ensures forall j :: 0 <= j < |old(chain)| ==> chain[j].cap == old(chain[j].cap)
      ensures k == Spec.FirstFit(old(state).blocks, old(state).current, need)
      ensures k < |old(chain)| ==> state == old(state) && calls == 0
      ensures var cap := Spec.NewBlockCap(cfg, blockSize, need); k == |old(chain)| ==>
        && calls == (if cap.Some? then 1 else 0)
        && (block == null <==> cap.None? || !granted)
        && state ==
           if block == null then old(state)
           else old(state).(blocks := old(state).blocks + [Spec.Block(cap.value, 0)])
      ensures block != null ==> k < |chain| && block == chain[k] && Spec.Room(state.blocks[k], need)
      ensures k < |old(chain)| ==> block != null
    {
      calls := 0;
      if need <= current.cap - current.used {
        FirstFitIs(state.blocks, state.current, state.current, need);
        return current, 0, state.current;
      }
      block, k := FindBlock(need);
      if need > block.cap - block.used {
        NewBlockFits(cfg, blockSize, need);
        var added, asked := BlockNew(cfg, blockSize, need, granted);
        calls, k := asked, |chain|;
        if added == null { return null, calls, k; }
        Append(block, added);
        block := added;
      }
    }

    /**
      * json__arena_alloc_raw. A null block is a failed request. Blocks are only ever added at the end
      * of the chain.
      */
    method Alloc(size: nat, granted: bool) returns (block: Block?, offset: nat, calls: nat)
      requires Valid() && size <= SIZE_MAX
      modifies this, chain
      ensures Valid() && old(chain) <= chain && fresh(chain[|old(chain)|..])
      ensures forall k :: 0 <= k < |old(chain)| ==> chain[k].cap == old(chain[k].cap)
      ensures nodeCount == old(nodeCount)
      ensures var r := Spec.Alloc(old(state), size, granted);
        && state == r.state && calls == r.calls && (block == null <==> r.place.None?)
        && (block != null ==>
          r.place.value.block < |chain| && block == chain[r.place.value.block] && offset == r.place.value.offset)
    {
      hide Spec.ValidState, Spec.FirstFit, Spec.UsedSum, Spec.NewBlockCap, Spec.AlignUp;
      offset, calls := 0, 0;
      if size == 0 { return null, 0, 0; }
      AlignmentIsPositive();
      var need := Spec.AlignUp(size, cfg.align);
      if need < size { return null, 0, 0; }
      if need > SIZE_MAX - total { return null, 0, 0; }
      ghost var k;
      block, calls, k := Locate(need, granted);
      if block == null { return null, 0, calls; }
      offset := Take(block, need, k);
    }

    lemma AlignmentIsPositive()
      requires Valid()
      ensures 1 <= cfg.align <= SIZE_MAX
    {}

    /** json_arena_reset: every block is kept, unused. */
    method Reset()
      requires Linked() && |state.blocks| == |chain| && state.blockSize == blockSize && state.cfg == cfg
      requires Spec.ValidConfig(cfg) && cfg.header <= blockSize <= SIZE_MAX
      requires forall k :: 0 <= k < |chain| ==> state.blocks[k].cap == chain[k].cap
      modifies this`current, this`total, this`nodeCount, this`state, chain
      ensures Valid() && chain == old(chain) && state == Spec.Reset(old(state)) && nodeCount == 0
    {
      hide Spec.ValidState;
      ResetKeeps(state);
      ClearBlocks();
      state := Spec.Reset(state);
      current, total, nodeCount := first, 0, 0;
    }

    /** The loop of json_arena_reset. */
    method ClearBlocks()
      requires Linked()
      modifies chain
      ensures Linked() && forall k :: 0 <= k < |chain| ==> chain[k].cap == old(chain[k].cap) && chain[k].used == 0
    {
      var block: Block? := first;
      ghost var k := 0;
      while block != null
        invariant k <= |chain| && block == if k < |chain| then chain[k] else null
        invariant Linked()
        invariant forall j :: 0 <= j < |chain| ==> chain[j].cap == old(chain[j].cap)
        invariant forall j :: 0 <= j < k ==> chain[j].used == 0
        decreases |chain| - k
      {
        block.used := 0;
        block, k := block.next, k + 1;
      }
    }

    /** Walks the chain from `from`, giving each block back. */
    method Release(from: Block?, ghost k: nat) returns (freed: seq<Block>)
      requires Linked() && k <= |chain| && from == if k < |chain| then chain[k] else null
      ensures freed == chain[k..]
    {
      var block := from;
      freed := [];
      ghost var j := k;
      while block != null
        invariant k <= j <= |chain| && block == if j < |chain| then chain[j] else null
        invariant freed == chain[k..j]
        decreases |chain| - j
      {
        freed := freed + [block];
        block, j := block.next, j + 1;
      }
    }

    /** json_arena_trim: gives back every block but the first, and resets. */
    method Trim() returns (freed: seq<Block>)
      requires Valid()
      modifies this, chain
      ensures Valid() && chain == old(chain[..1]) && state == Spec.Trim(old(state)) && nodeCount == 0
      ensures freed == old(chain[1..])
    {
      freed := Release(first.next, 1);
      chain := chain[..1];
      state := state.(blocks := state.blocks[..1]);
      first.next := null;
      Reset();
    }

    /** json_arena_destroy: gives back every block of the chain. */
    method Destroy() returns (freed: seq<Block>)
      requires Valid()
      ensures freed == chain
    {
      freed := Release(first, 0);
    }
  }
}
