/** The arena as a value: block chain, bump pointers, reset and trim, and what holds over every run. */
module ArenaSpec {
  import opened Base

  /** JSON_ARENA_ALIGN, the aligned size of a block header, and JSON_ARENA_MIN_BLOCK. */
  datatype Config = Config(align: nat, header: nat, minBlock: nat)

  predicate ValidConfig(c: Config) {
    1 <= c.align && c.header + c.align <= SIZE_MAX && c.header <= c.minBlock <= SIZE_MAX
  }

  predicate Aligned(n: nat, align: nat)
    requires align >= 1
  {
    n % align == 0
  }

  lemma AlignedProduct(k: nat, align: nat)
    requires align >= 1
    ensures Aligned(k * align, align)
  {
    var p := k * align;
    var q, r := p / align, p % align;
    assert p == q * align + r;
    assert (k - q) * align == r;
    AtLeastOne(k - q, align);
    AtLeastOne(q - k, align);
  }

  lemma AtLeastOne(d: int, align: nat)
    ensures d > 0 ==> d * align >= align
  {}

  lemma AlignedSum(a: nat, b: nat, align: nat)
    requires align >= 1 && Aligned(a, align) && Aligned(b, align)
    ensures Aligned(a + b, align)
  {
    var x, y := a / align, b / align;
    assert a == x * align && b == y * align;
    assert (x + y) * align == x * align + y * align;
    AlignedProduct(x + y, align);
  }

  lemma LeastAligned(n: nat, align: nat)
    requires align >= 1 && Aligned(n, align) && n > 0
    ensures n >= align
  {}

  /**
    * json__align_up, with the 64-bit wrap-around of the addition; clearing the low bits drops the
    * remainder, the alignment being a power of two.
    */
  function AlignUp(n: nat, align: nat): (r: nat)
    requires n <= SIZE_MAX && 1 <= align <= SIZE_MAX
    ensures Aligned(r, align)
    ensures if n + (align - 1) <= SIZE_MAX then n <= r < n + align else r < n
  {
    var m := (n + (align - 1)) % (SIZE_MAX + 1);
    RoundDown(m, align);
    m / align * align
  }

  lemma RoundDown(m: nat, align: nat)
    requires align >= 1
    ensures Aligned(m / align * align, align) && m - align < m / align * align <= m
  {
    AlignedProduct(m / align, align);
    assert m == m / align * align + m % align;
  }

  datatype Block = Block(cap: nat, used: nat)

  datatype State = State(blocks: seq<Block>, current: nat, total: nat, blockSize: nat, cfg: Config)

  /** Where an allocation lies: block number in the chain, and offset in the data of that block. */
  datatype Place = Place(block: nat, offset: nat)

  /** The state after a request, the place granted, and the number of calls to the backing allocator. */
  datatype Reply = Reply(state: State, place: Option<Place>, calls: nat)

  predicate Room(b: Block, need: nat) { need <= b.cap - b.used }

  /** The first block from number k on that has room, or the length of the chain. */
  function FirstFit(blocks: seq<Block>, k: nat, need: nat): (r: nat)
    requires k <= |blocks|
    ensures k <= r <= |blocks|
    ensures r < |blocks| ==> Room(blocks[r], need)
    ensures forall j :: k <= j < r ==> !Room(blocks[j], need)
    decreases |blocks| - k
  {
    if k == |blocks| || Room(blocks[k], need) then k else FirstFit(blocks, k + 1, need)
  }

  /** json__block_new: the capacity of a new block, or None when its size would overflow. */
  function NewBlockCap(c: Config, blockSize: nat, need: nat): Option<nat>
    requires ValidConfig(c) && need <= SIZE_MAX && blockSize <= SIZE_MAX
  {
    if need > SIZE_MAX - c.header || need + c.header > SIZE_MAX - (c.align - 1) then None
    else
      var size := if need + c.header > blockSize then AlignUp(need + c.header, c.align) else blockSize;
      if size < c.header then None else Some(size - c.header)
  }

  function Bump(s: State, k: nat, need: nat): State
    requires k < |s.blocks|
  {
    s.(blocks := s.blocks[k := s.blocks[k].(used := s.blocks[k].used + need)], current := k, total := s.total + need)
  }

  /** json__arena_alloc_raw; `granted` is the answer of the backing allocator, if it is asked. */
  function Alloc(s: State, size: nat, granted: bool): Reply
    requires ValidState(s) && size <= SIZE_MAX
  {
    if size == 0 then Reply(s, None, 0)
    else
      var need := AlignUp(size, s.cfg.align);
      if need < size || need > SIZE_MAX - s.total then Reply(s, None, 0)
      else
        var k := FirstFit(s.blocks, s.current, need);
        if k < |s.blocks| then Reply(Bump(s, k, need), Some(Place(k, s.blocks[k].used)), 0)
        else match NewBlockCap(s.cfg, s.blockSize, need)
          case None => Reply(s, None, 0)
          case Some(cap) =>
            if !granted then Reply(s, None, 1)
            else
              var longer := s.(blocks := s.blocks + [Block(cap, 0)]);
              Reply(Bump(longer, k, need), Some(Place(k, 0)), 1)
  }

  /** json_arena_reset. */
  function Reset(s: State): State {
    State(seq(|s.blocks|, k requires 0 <= k < |s.blocks| => s.blocks[k].(used := 0)), 0, 0, s.blockSize, s.cfg)
  }

  /** json_arena_trim. */
  function Trim(s: State): State
    requires |s.blocks| > 0
  {
    Reset(s.(blocks := s.blocks[..1]))
  }

  /** Sum of the bytes in use. */
  function UsedSum(blocks: seq<Block>): nat {
    if blocks == [] then 0 else UsedSum(blocks[..|blocks| - 1]) + blocks[|blocks| - 1].used
  }

  /** The invariant of an arena. */
  ghost predicate ValidState(s: State) {
    && s.current < |s.blocks| && s.total <= SIZE_MAX && ValidConfig(s.cfg) && s.cfg.header <= s.blockSize <= SIZE_MAX
    && (forall k :: 0 <= k < |s.blocks| ==>
      s.blocks[k].used <= s.blocks[k].cap && Aligned(s.blocks[k].used, s.cfg.align))
    && (forall k :: s.current < k < |s.blocks| ==> s.blocks[k].used == 0)
    && s.total == UsedSum(s.blocks)
  }

  /** json_arena_create, after its first block has been obtained. */
  function Created(c: Config, blockSize: nat): (s: State)
    requires ValidConfig(c) && blockSize <= SIZE_MAX
    ensures c.minBlock <= s.blockSize && s.blockSize <= SIZE_MAX && |s.blocks| == 1
    ensures s.blocks[0].cap + c.header == s.blockSize && s.blocks[0].used == 0
    ensures blockSize > 0 && blockSize >= c.minBlock ==> s.blockSize == blockSize
    ensures blockSize == 0 && c.minBlock <= 65536 ==> s.blockSize == 65536
  {
    var size := if blockSize == 0 then 65536 else blockSize;
    var size' := if size < c.minBlock then c.minBlock else size;
    State([Block(size' - c.header, 0)], 0, 0, size', c)
  }
}
