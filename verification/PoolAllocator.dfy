/** The arithmetic and the invariant of the pool allocator: blocks from the operating system, one
    chunk cut out of each, and a list of freed chunks that is threaded through the chunks themselves. */
module PoolLayout {

  import opened Bits

  const WORD := M
  const LINK_SIZE := 8
  const NULL := 0

  /** The template parameters, and size and alignment of the element type. */
  datatype Config = Config(chunkCount: Pos, valueSize: Pos, valueAlign: Pos, pageSize: Pos, minAlloc: Pos)

  type Pos = x: int | x > 0 witness 1

  /** Elements are at least as big as a pointer, aligned to a power of two that divides their size. */
  ghost predicate Sensible(c: Config) {
    && c.valueSize >= LINK_SIZE
    && (exists k: nat :: k < 64 && c.valueAlign == Pow2(k)) && c.valueSize % c.valueAlign == 0
  }

  // ----- Sizes

  function ChunkSize(c: Config): int {
    c.chunkCount * c.valueSize
  }

  /** The slot is a union of an element and a pointer. */
  function SlotAlign(c: Config): int {
    if c.valueAlign < LINK_SIZE then LINK_SIZE else c.valueAlign
  }

  function SlotSize(c: Config): int
  {
    var a := SlotAlign(c);
    (c.valueSize + a - 1) / a * a
  }

  function MinBlockSize(c: Config): int {
    LINK_SIZE + c.minAlloc * ChunkSize(c) + c.valueAlign
  }

  /** `block_size`: the least number of whole pages that holds the minimum. */
  method BlockSize(c: Config) returns (bs: nat)
    ensures bs == BlockSizeOf(c)
    ensures var least := LINK_SIZE + c.minAlloc * (c.chunkCount * c.valueSize) + c.valueAlign;
            && bs % c.pageSize == 0 && bs >= c.pageSize && bs >= least
            && (bs > c.pageSize ==> bs - c.pageSize < least)
  {
    hide MinBlockSize;
    bs := c.pageSize;
    ghost var pages := 1;
    while bs < MinBlockSize(c)
      invariant bs == pages * c.pageSize && bs >= c.pageSize && pages >= 1
      invariant bs > c.pageSize ==> bs - c.pageSize < MinBlockSize(c)
      invariant BlockSizeFrom(c, c.pageSize) == BlockSizeFrom(c, bs)
      decreases MinBlockSize(c) - bs
    {
      OneMorePage(pages, c.pageSize);
      bs := bs + c.pageSize;
      pages := pages + 1;
    }
    Multiple(pages, c.pageSize);
    MinBlockSizeExact(c);
  }

  lemma MinBlockSizeExact(c: Config)
    ensures MinBlockSize(c) == LINK_SIZE + c.minAlloc * (c.chunkCount * c.valueSize) + c.valueAlign
  {
  }

  lemma OneMorePage(pages: int, size: int)
    ensures pages * size + size == (pages + 1) * size
  {
  }

  function BlockSizeFrom(c: Config, bs: nat): (r: nat)
    ensures r >= MinBlockSize(c) && r >= bs
    decreases MinBlockSize(c) - bs
  {
    if bs < MinBlockSize(c) then BlockSizeFrom(c, bs + c.pageSize) else bs
  }

  function BlockSizeOf(c: Config): nat
  {
    BlockSizeFrom(c, c.pageSize)
  }

  lemma Multiple(m: nat, a: nat)
    requires a > 0
    ensures (m * a) % a == 0
  {
    Unique(m * a, m, 0, a);
  }

  lemma ModPlus(x: int, m: int, a: int)
    requires a > 0
    ensures (x + m * a) % a == x % a
  {
    var q, r := x / a, x % a;
    assert (q + m) * a == q * a + m * a;
    Unique(x + m * a, q + m, r, a);
  }

  // ----- Padding

  /** `pad_pointer`, with the subtraction wrapping around at 64 bits. */
  function Pad(p: int, align: int): int
    requires align > 0
  {
    ((align - p) % WORD) % align
  }

  /** Reducing by a multiple of the alignment first makes no difference. */
  lemma ReduceTwice(x: int, a: int, m: int)
    requires a > 0 && m > 0
    ensures (x % (a * m)) % a == x % a
  {
    var n := a * m;
    Positive(a, m);
    var q := x / n;
    assert x % n == x - q * n;
    Regroup(q, a, m);
    ModPlus(x, -(q * m), a);
  }

  lemma Regroup(q: int, a: int, m: int)
    ensures q * (a * m) == (q * m) * a && -(q * m) * a == -(q * (a * m))
  {
  }

  lemma NextMultiple(p: int, a: int)
    requires a > 0
    ensures var r := (a - p) % a; 0 <= r < a && (p + r) % a == 0
  {
    var x := a - p;
    var q := x / a;
    assert x == q * a + x % a;
    assert (1 - q) * a == a - q * a;
    Unique(p + x % a, 1 - q, 0, a);
  }

  /** Padding reaches the next multiple of a power of two, although the subtraction may wrap. */
  lemma PadAligns(p: int, k: nat)
    requires k <= 64
    ensures var a := Pow2(k); 0 <= Pad(p, a) < a && (p + Pad(p, a)) % a == 0
  {
    hide Pow2;
    var a := Pow2(k);
    WordSize();
    Pow2Add(k, 64 - k);
    ReduceTwice(a - p, a, Pow2(64 - k));
    NextMultiple(p, a);
  }

  // ----- A block and its chunk

  /** `first_slot`: where the chunk of a block starts. */
  function FirstSlot(c: Config, block: int): int
  {
    block + LINK_SIZE + Pad(block + LINK_SIZE, SlotAlign(c))
  }

  /** A region as the operating system hands it out. */
  ghost predicate IsRegion(c: Config, block: int)
  {
    block > 0 && block % LINK_SIZE == 0 && block + BlockSizeOf(c) <= WORD
  }

  lemma SlotAlignIsPower(c: Config)
    requires Sensible(c)
    ensures exists k: nat :: k < 64 && SlotAlign(c) == Pow2(k)
  {
    assert Pow2(3) == 8;
  }

  /** The chunk of a block is aligned for slots and elements and lies inside the block, behind the link. */
  lemma ChunkInBlock(c: Config, block: int)
    requires Sensible(c) && block % LINK_SIZE == 0
    ensures var s := FirstSlot(c, block);
            && s % SlotAlign(c) == 0 && s % c.valueAlign == 0 && s % LINK_SIZE == 0
            && block + LINK_SIZE <= s && s + ChunkSize(c) <= block + BlockSizeOf(c)
    ensures ChunkSize(c) >= LINK_SIZE
  {
    hide Pow2, Pad, BlockSizeFrom;
    SlotAlignIsPower(c);
    var k: nat :| k < 64 && SlotAlign(c) == Pow2(k);
    PadAligns(block + LINK_SIZE, k);
    AlignDown(c, FirstSlot(c, block));
    ChunkAtLeast(c);
    if c.valueAlign < LINK_SIZE { NoPad(block + LINK_SIZE); }
  }

  lemma NoPad(p: int)
    requires p % 8 == 0
    ensures Pad(p, 8) == 0
  {
  }

  lemma ChunkAtLeast(c: Config)
    requires c.valueSize >= LINK_SIZE
    ensures ChunkSize(c) >= c.valueSize && c.minAlloc * ChunkSize(c) >= ChunkSize(c)
  {
    assert c.chunkCount * c.valueSize >= 1 * c.valueSize;
    assert c.minAlloc * ChunkSize(c) >= 1 * ChunkSize(c);
  }

  lemma AlignDown(c: Config, s: int)
    requires Sensible(c) && s % SlotAlign(c) == 0
    ensures s % c.valueAlign == 0 && s % LINK_SIZE == 0
  {
    hide Pow2;
    LinksFit(c, s);
    if c.valueAlign < LINK_SIZE {
      var k: nat :| k < 64 && c.valueAlign == Pow2(k);
      SmallPower(k);
      Eights(s);
    }
  }

  /** Slots are aligned for the links of the free list too. */
  lemma LinksFit(c: Config, s: int)
    requires Sensible(c) && s % SlotAlign(c) == 0
    ensures s % LINK_SIZE == 0
  {
    hide Pow2;
    if c.valueAlign > LINK_SIZE {
      var k: nat :| k < 64 && c.valueAlign == Pow2(k);
      LargePower(k);
      var q := s / c.valueAlign;
      assert s == q * (8 * Pow2(k - 3));
      Regroup(q, 8, Pow2(k - 3));
      Swapped(q, Pow2(k - 3));
      Unique(s, q * Pow2(k - 3), 0, 8);
    }
  }

  lemma Swapped(q: int, p: int)
    ensures q * (8 * p) == (q * p) * 8
  {
  }

  lemma LargePower(k: nat)
    requires Pow2(k) > 8
    ensures k >= 3 && Pow2(k) == 8 * Pow2(k - 3)
  {
    assert Pow2(3) == 8;
    assert k == 0 || k == 1 || k == 2 || k >= 3;
    if k >= 3 { assert Pow2(k) == 2 * Pow2(k - 1) == 4 * Pow2(k - 2); }
  }

  lemma Eights(s: int)
    requires s % 8 == 0
    ensures s % 1 == 0 && s % 2 == 0 && s % 4 == 0
  {
    var t := s / 8;
    assert s == 8 * t;
    Unique(s, 4 * t, 0, 2);
    Unique(s, 2 * t, 0, 4);
  }

  lemma SmallPower(k: nat)
    requires Pow2(k) < 8
    ensures Pow2(k) in {1, 2, 4}
  {
    if k >= 3 { assert Pow2(k) == 2 * Pow2(k - 1) == 4 * Pow2(k - 2); }
  }

  /** Advancing by a slot per element passes the end of the chunk, so a block serves one chunk. */
  lemma OneChunkPerBlock(c: Config)
    requires Sensible(c)
    ensures c.chunkCount * SlotSize(c) >= ChunkSize(c)
  {
    RoundsUp(c.valueSize, SlotAlign(c));
    Monotone(c.chunkCount, c.valueSize, SlotSize(c));
  }

  lemma RoundsUp(v: int, a: int)
    requires a > 0
    ensures (v + a - 1) / a * a >= v
  {
    var x := v + a - 1;
    assert x == x / a * a + x % a;
  }

  lemma Monotone(n: int, x: int, y: int)
    requires n > 0 && x <= y
    ensures n * x <= n * y
  {
  }
}

/** The pool allocator itself. Memory is a table of the pointer-sized words that the allocator reads. */
module PoolAllocator {
  import opened Lists
  import opened PoolLayout

  type Memory = map<int, int>

  /** The list `l` is threaded through memory: each entry holds the next one, the last one null. */
  ghost predicate Threaded(memory: Memory, head: int, l: seq<int>) {
    && head == (if l == [] then NULL else l[0])
    && forall i | 0 <= i < |l| :: l[i] != NULL && l[i] in memory && memory[l[i]] == After(l, i)
  }

  function After(l: seq<int>, i: int): int
    requires 0 <= i < |l|
  {
    if i + 1 < |l| then l[i + 1] else NULL
  }

  lemma ThreadPush(memory: Memory, head: int, l: seq<int>, p: int)
    requires Threaded(memory, head, l) && p in memory && memory[p] == head && p != NULL
    ensures Threaded(memory, p, [p] + l)
  {
    var l' := [p] + l;
    forall i | 0 <= i < |l'| ensures l'[i] != NULL && l'[i] in memory && memory[l'[i]] == After(l', i) {
      if i == 0 {
        assert l'[0] == p && After(l', 0) == head;
      } else {
        assert l'[i] == l[i - 1] && After(l', i) == After(l, i - 1);
      }
    }
  }

  lemma ThreadPop(memory: Memory, head: int, l: seq<int>)
    requires Threaded(memory, head, l)
    ensures l == [] <==> head == NULL
    ensures l != [] ==> head == l[0] && head in memory && Threaded(memory, memory[head], l[1..])
  {
    if l != [] {
      var r := l[1..];
      assert l[0] in memory && memory[l[0]] == After(l, 0);
      forall i | 0 <= i < |r| ensures r[i] != NULL && r[i] in memory && memory[r[i]] == After(r, i) {
        assert r[i] == l[i + 1] && After(r, i) == After(l, i + 1);
      }
    }
  }

  lemma ThreadElsewhere(memory: Memory, head: int, l: seq<int>, p: int, v: int)
    requires Threaded(memory, head, l) && forall i | 0 <= i < |l| :: l[i] != p
    ensures Threaded(memory[p := v], head, l)
  {
  }

  ghost predicate Apart(a: int, n: int, b: int, m: int) {
    a + n <= b || b + m <= a
  }

  /** Regions of the operating system that do not overlap. */
  ghost predicate Blocks(c: Config, blocks: seq<int>)
  {
    && (forall i | 0 <= i < |blocks| :: IsRegion(c, blocks[i]))
    && (forall i, j | 0 <= i < j < |blocks| :: Apart(blocks[i], BlockSizeOf(c), blocks[j], BlockSizeOf(c)))
  }

  ghost predicate IsSlot(c: Config, blocks: seq<int>, p: int)
  {
    exists i :: 0 <= i < |blocks| && p == FirstSlot(c, blocks[i])
  }

  /** Every chunk that was cut out of a block is either live or on the free list, once. */
  ghost predicate Ledger(c: Config, blocks: seq<int>, free: seq<int>, live: set<int>)
  {
    && (forall p :: p in live || p in free <==> IsSlot(c, blocks, p))
    && NoRepeats(free) && (forall i | 0 <= i < |free| :: free[i] !in live)
    && |blocks| == |live| + |free|
  }

  /** Chunks overlap neither each other nor the link at the start of any block. */
  lemma SlotsApart(c: Config, blocks: seq<int>, p: int, q: int)
    requires Sensible(c) && Blocks(c, blocks) && IsSlot(c, blocks, p) && IsSlot(c, blocks, q) && p != q
    ensures Apart(p, ChunkSize(c), q, ChunkSize(c)) && ChunkSize(c) >= LINK_SIZE
  {
    hide BlockSizeOf, FirstSlot, Sensible, ChunkSize, SlotAlign;
    var i :| 0 <= i < |blocks| && p == FirstSlot(c, blocks[i]);
    var j :| 0 <= j < |blocks| && q == FirstSlot(c, blocks[j]);
    assert i < j ==> Apart(blocks[i], BlockSizeOf(c), blocks[j], BlockSizeOf(c));
    assert j < i ==> Apart(blocks[j], BlockSizeOf(c), blocks[i], BlockSizeOf(c));
    ChunkInBlock(c, blocks[i]);
    ChunkInBlock(c, blocks[j]);
  }

  lemma SlotAndLinkApart(c: Config, blocks: seq<int>, p: int, j: int)
    requires Sensible(c) && Blocks(c, blocks) && IsSlot(c, blocks, p) && 0 <= j < |blocks|
    ensures Apart(p, ChunkSize(c), blocks[j], LINK_SIZE) && p > 0 && ChunkSize(c) >= LINK_SIZE
  {
    hide BlockSizeOf, FirstSlot, Sensible, ChunkSize, SlotAlign;
    var i :| 0 <= i < |blocks| && p == FirstSlot(c, blocks[i]);
    assert i < j ==> Apart(blocks[i], BlockSizeOf(c), blocks[j], BlockSizeOf(c));
    assert j < i ==> Apart(blocks[j], BlockSizeOf(c), blocks[i], BlockSizeOf(c));
    ChunkInBlock(c, blocks[i]);
    ChunkInBlock(c, blocks[j]);
  }

  /** A live or free chunk lies inside a block, aligned for its elements. */
  lemma SlotInBlock(c: Config, blocks: seq<int>, p: int)
    requires Sensible(c) && Blocks(c, blocks) && IsSlot(c, blocks, p)
    ensures p % c.valueAlign == 0 && p % LINK_SIZE == 0 && p % SlotAlign(c) == 0
    ensures Inside(c, blocks, p)
  {
    hide BlockSizeOf, FirstSlot, Sensible, SlotAlign;
    var i :| 0 <= i < |blocks| && p == FirstSlot(c, blocks[i]);
    ChunkInBlock(c, blocks[i]);
  }

  ghost predicate Inside(c: Config, blocks: seq<int>, p: int) {
    exists i ::
      && 0 <= i < |blocks| && blocks[i] + LINK_SIZE <= p
      && p + c.chunkCount * c.valueSize <= blocks[i] + BlockSizeOf(c)
  }

  /** Live chunks are aligned, lie inside a block and overlap neither each other nor a free chunk. */
  ghost predicate Safe(c: Config, blocks: seq<int>, free: seq<int>, live: set<int>) {
    var size := c.chunkCount * c.valueSize;
    && (forall p | p in live :: p != NULL && p % c.valueAlign == 0 && p % LINK_SIZE == 0 && Inside(c, blocks, p))
    && (forall p, q | p in live && q in live && p != q :: Apart(p, size, q, size))
    && (forall p, i | p in live && 0 <= i < |free| :: Apart(p, size, free[i], size))
    && NoRepeats(free)
  }

  lemma ChunksAreSafe(c: Config, blocks: seq<int>, free: seq<int>, live: set<int>)
    requires Sensible(c) && Blocks(c, blocks) && Ledger(c, blocks, free, live)
    ensures Safe(c, blocks, free, live)
  {
    hide Sensible, Blocks, IsSlot, Inside, Apart;
    LiveNotNull(c, blocks, free, live);
    forall p | p in live ensures p % c.valueAlign == 0 && p % LINK_SIZE == 0 && Inside(c, blocks, p) {
      SlotInBlock(c, blocks, p);
    }
    forall p, q | p in live && q in live && p != q ensures Apart(p, ChunkSize(c), q, ChunkSize(c)) {
      SlotsApart(c, blocks, p, q);
    }
    forall p, i | p in live && 0 <= i < |free| ensures Apart(p, ChunkSize(c), free[i], ChunkSize(c)) {
      assert free[i] in free;
      SlotsApart(c, blocks, p, free[i]);
    }
  }

  /** Memory where nothing changed but inside one chunk. */
  ghost predicate OnlyInside(memory: Memory, memory': Memory, p: int, n: int) {
    forall a | a in memory && Apart(p, n, a, LINK_SIZE) :: a in memory' && memory'[a] == memory[a]
  }

  /** Writes into a chunk disturb neither list, unless the chunk is itself on it. */
  lemma ListsUndisturbed(c: Config, blocks: seq<int>, free: seq<int>, live: set<int>, memory: Memory, memory': Memory,
                         currentBlock: int, freeSlots: int, p: int)
    requires Sensible(c) && Blocks(c, blocks) && Ledger(c, blocks, free, live) && p in live
    requires Threaded(memory, currentBlock, blocks) && Threaded(memory, freeSlots, free)
    requires OnlyInside(memory, memory', p, ChunkSize(c))
    ensures Threaded(memory', currentBlock, blocks) && Threaded(memory', freeSlots, free)
  {
    hide Sensible, Blocks, IsSlot, ChunkSize;
    assert IsSlot(c, blocks, p);
    forall j | 0 <= j < |blocks| ensures Apart(p, ChunkSize(c), blocks[j], LINK_SIZE) {
      SlotAndLinkApart(c, blocks, p, j);
    }
    forall j | 0 <= j < |free| ensures Apart(p, ChunkSize(c), free[j], LINK_SIZE) {
      assert free[j] in free;
      SlotsApart(c, blocks, p, free[j]);
    }
  }

  lemma ReuseKeepsLedger(c: Config, blocks: seq<int>, free: seq<int>, live: set<int>)
    requires Ledger(c, blocks, free, live) && free != []
    ensures free[0] !in live && Ledger(c, blocks, free[1..], live + {free[0]})
  {
    hide IsSlot;
    assert free == [free[0]] + free[1..];
  }

  lemma FreeKeepsLedger(c: Config, blocks: seq<int>, free: seq<int>, live: set<int>, p: int)
    requires Ledger(c, blocks, free, live) && p in live
    ensures Ledger(c, blocks, [p] + free, live - {p})
  {
    hide IsSlot;
  }

  lemma NewKeepsLedger(c: Config, blocks: seq<int>, live: set<int>, region: int)
    requires Sensible(c) && Ledger(c, blocks, [], live) && Blocks(c, [region] + blocks)
    ensures var p := FirstSlot(c, region);
            p > 0 && p !in live && Ledger(c, [region] + blocks, [], live + {p})
  {
    hide Sensible, FirstSlot, BlockSizeOf, ChunkSize, SlotAlign;
    var all, p := [region] + blocks, FirstSlot(c, region);
    assert all[0] == region;
    ChunkInBlock(c, region);
    forall i | 0 <= i < |blocks| ensures FirstSlot(c, blocks[i]) != p {
      assert all[i + 1] == blocks[i];
      ChunkInBlock(c, blocks[i]);
    }
    forall q ensures q in live + {p} <==> IsSlot(c, all, q) {
      SlotOfMore(c, blocks, region, q);
    }
  }

  lemma SlotOfMore(c: Config, blocks: seq<int>, region: int, q: int)
    ensures IsSlot(c, [region] + blocks, q) <==> q == FirstSlot(c, region) || IsSlot(c, blocks, q)
  {
    hide FirstSlot;
    var all := [region] + blocks;
    assert all[0] == region;
    if i :| 0 <= i < |blocks| && q == FirstSlot(c, blocks[i]) {
      assert all[i + 1] == blocks[i];
    }
  }

  /** Linking a new block in front of the others disturbs neither list. */
  lemma NewBlockUndisturbing(c: Config, blocks: seq<int>, free: seq<int>, live: set<int>, memory: Memory,
                             currentBlock: int, freeSlots: int, region: int)
    requires Sensible(c) && Blocks(c, blocks) && Ledger(c, blocks, free, live) && Blocks(c, [region] + blocks)
    requires Threaded(memory, currentBlock, blocks) && Threaded(memory, freeSlots, free)
    ensures Threaded(memory[region := currentBlock], region, [region] + blocks)
    ensures Threaded(memory[region := currentBlock], freeSlots, free)
  {
    hide Sensible, BlockSizeOf, ChunkSize, SlotAlign, IsSlot, Threaded;
    var all := [region] + blocks;
    assert all[0] == region;
    assert IsRegion(c, region);
    RegionSize(c);
    forall i | 0 <= i < |blocks| ensures blocks[i] != region {
      assert all[i + 1] == blocks[i];
    }
    forall i | 0 <= i < |free| ensures free[i] != region {
      assert free[i] in free;
      SlotOfMore(c, blocks, region, free[i]);
      SlotAndLinkApart(c, all, free[i], 0);
    }
    ThreadElsewhere(memory, freeSlots, free, region, currentBlock);
    ThreadElsewhere(memory, currentBlock, blocks, region, currentBlock);
    ThreadPush(memory[region := currentBlock], currentBlock, blocks, region);
  }

  lemma LedgerSize(c: Config, blocks: seq<int>, free: seq<int>, live: set<int>)
    requires Ledger(c, blocks, free, live)
    ensures |blocks| == |live| + |free|
  {
    hide IsSlot;
  }

  lemma LiveNotNull(c: Config, blocks: seq<int>, free: seq<int>, live: set<int>)
    requires Sensible(c) && Blocks(c, blocks) && Ledger(c, blocks, free, live)
    ensures NULL !in live
  {
    hide Sensible, BlockSizeOf, FirstSlot;
    if NULL in live {
      var i :| 0 <= i < |blocks| && NULL == FirstSlot(c, blocks[i]);
      SlotAndLinkApart(c, blocks, NULL, i);
    }
  }

  lemma RegionSize(c: Config)
    requires Sensible(c)
    ensures BlockSizeOf(c) > 0
  {
  }

  class Pool {
    const c: Config
    var memory: Memory
    var currentBlock: int
    var currentSlot: int
    var lastSlot: int
    var freeSlots: int
    ghost var blocks: seq<int>   // latest first
    ghost var free: seq<int>     // next to be used first
    ghost var live: set<int>
    ghost var peak: nat          // the greatest number of chunks that were live at a time

    ghost predicate Valid()
      reads this
    {
      && Sensible(c) && Blocks(c, blocks) && Ledger(c, blocks, free, live)
      && Threaded(memory, currentBlock, blocks) && Threaded(memory, freeSlots, free)
      && currentSlot >= lastSlot && |blocks| == peak
    }

    constructor (c: Config)
      requires Sensible(c)
      ensures Valid() && this.c == c && live == {} && blocks == [] && peak == 0
    {
      this.c := c;
      memory, currentBlock, currentSlot, lastSlot, freeSlots := map[], NULL, NULL, NULL, NULL;
      blocks, free, live, peak := [], [], {}, 0;
    }

    /** `region` is what the operating system would hand out next. */
    method Allocate(region: int) returns (p: int)
      requires Valid() && Blocks(c, [region] + blocks)
      modifies this
      ensures Valid() && Safe(c, blocks, free, live) && p !in old(live) && live == old(live) + {p} && p != NULL
      ensures peak == if |live| > old(peak) then |live| else old(peak)
      ensures blocks == if old(free) == [] then [region] + old(blocks) else old(blocks)
      ensures old(free) != [] ==> p == old(free)[0] && free == old(free)[1..]
    {
      hide Sensible, Blocks, Ledger, Threaded, SlotSize, Safe;
      LedgerSize(c, blocks, free, live);
      ThreadPop(memory, freeSlots, free);
      if freeSlots != NULL {
        p := freeSlots;
        freeSlots := memory[freeSlots];
        ReuseKeepsLedger(c, blocks, free, live);
        free, live := free[1..], live + {p};
      } else {
        if currentSlot >= lastSlot {
          AllocateBlock(region);
        }
        p := currentSlot;
        NewKeepsLedger(c, old(blocks), live, region);
        currentSlot := currentSlot + c.chunkCount * SlotSize(c);
        live, peak := live + {p}, peak + 1;
      }
      LedgerSize(c, blocks, free, live);
      ChunksAreSafe(c, blocks, free, live);
    }

    method AllocateBlock(region: int)
      requires Valid() && Blocks(c, [region] + blocks)
      modifies this`memory, this`currentBlock, this`currentSlot, this`lastSlot, this`blocks
      ensures blocks == [region] + old(blocks)
      ensures Threaded(memory, currentBlock, blocks) && Threaded(memory, freeSlots, free)
      ensures currentSlot == FirstSlot(c, region) && lastSlot == currentSlot + ChunkSize(c)
      ensures currentSlot + c.chunkCount * SlotSize(c) >= lastSlot
    {
      hide Sensible, Ledger, SlotSize, ChunkSize, BlockSizeOf;
      NewBlockUndisturbing(c, blocks, free, live, memory, currentBlock, freeSlots, region);
      memory := memory[region := currentBlock];
      currentBlock := region;
      var body := region + LINK_SIZE;
      currentSlot := body + Pad(body, SlotAlign(c));
      lastSlot := currentSlot + ChunkSize(c);
      blocks := [region] + blocks;
      OneChunkPerBlock(c);
    }

    method Deallocate(p: int)
      requires Valid() && (p == NULL || p in live)
      modifies this
      ensures Valid() && Safe(c, blocks, free, live) && live == old(live) - {p} && blocks == old(blocks)
      ensures peak == old(peak)
      ensures free == if p == NULL then old(free) else [p] + old(free)
    {
      hide Sensible, Blocks, Ledger, Threaded, Safe;
      LiveNotNull(c, blocks, free, live);
      if p != NULL {
        ListsUndisturbed(c, blocks, free, live, memory, memory[p := freeSlots], currentBlock, freeSlots, p);
        memory := memory[p := freeSlots];
        ThreadPush(memory, freeSlots, free, p);
        freeSlots := p;
        FreeKeepsLedger(c, blocks, free, live, p);
        free, live := [p] + free, live - {p};
      }
      ChunksAreSafe(c, blocks, free, live);
    }

    /** The owner of a live chunk may write anything into it. */
    method WriteInto(p: int, memory': Memory)
      requires Valid() && p in live && OnlyInside(memory, memory', p, ChunkSize(c))
      modifies this`memory
      ensures Valid() && memory == memory'
    {
      hide Sensible, Blocks, Ledger, ChunkSize;
      ListsUndisturbed(c, blocks, free, live, memory, memory', currentBlock, freeSlots, p);
      memory := memory';
    }

    method MemorySize() returns (ms: nat)
      requires Valid()
      ensures ms == peak * BlockSizeOf(c)
    {
      hide Sensible, Ledger, BlockSizeOf;
      var block, size := currentBlock, BlockSizeOf(c);
      ms := 0;
      ghost var k := 0;
      while block != NULL
        invariant 0 <= k <= |blocks| && ms == k * size && block == if k < |blocks| then blocks[k] else NULL
        decreases |blocks| - k
      {
        ms := ms + size;
        block := memory[block];
        k := k + 1;
      }
    }
  }
}
