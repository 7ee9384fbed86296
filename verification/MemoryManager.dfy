/**
 The memory manager (memory/MemoryManager.cpp): pool allocation with a page fallback, release,
 and the compaction of a pool, over one byte-addressed memory. Pages and TLB are specified by
 `PageMapping`, each pool by `PoolBlocks`.
 */
module MemoryManagement {
  import opened MapSums
  import opened Prelude
  import PM = PageMapping
  import PB = PoolBlocks

  const CACHE_LINE_SIZE: nat := 64
  const DEFRAG_THRESHOLD: nat := 1024 * 1024

  /** Rounding up to cache lines, in size_t arithmetic. */
  function RoundToLine(size: nat): nat {
    (size + CACHE_LINE_SIZE - 1) % U64 / CACHE_LINE_SIZE * CACHE_LINE_SIZE
  }

  datatype MemoryPool = MemoryPool(start: nat, size: nat, used: nat, optimizedFor: nat,
                                   deallocations: nat, fragmentedSpace: nat)
  {
    predicate ShouldDefragment() {
      fragmentedSpace > DEFRAG_THRESHOLD
    }

    /** The pool after a block of the given size was released; the subtraction is a size_t subtraction. */
    function Released(n: nat): MemoryPool {
      this.(used := (used - n) % U64, deallocations := deallocations + 1, fragmentedSpace := fragmentedSpace + n)
    }
  }

  const POOL_KILOBYTES: seq<nat> := [64, 256, 1024, 4096]

  /** `configureMemoryPools`: one empty pool per workload type. */
  function FreshPools(starts: seq<nat>): seq<MemoryPool>
    requires |starts| == |POOL_KILOBYTES|
  {
    seq(|POOL_KILOBYTES|, i requires 0 <= i < |POOL_KILOBYTES| =>
      MemoryPool(starts[i], POOL_KILOBYTES[i] * 1024, 0, i, 0, 0))
  }

  datatype PoolAllocation = PoolAllocation(pool: nat, size: nat)

  /** Pool i is for the workload and has room behind its mark, and no pool before it is and has. */
  predicate IsFirstFor(pools: seq<MemoryPool>, workload: nat, size: nat, i: nat) {
    && i < |pools| && pools[i].optimizedFor == workload && pools[i].used + size <= pools[i].size
    && forall j | 0 <= j < i :: pools[j].optimizedFor == workload ==> pools[j].used + size > pools[j].size
  }

  /** Every pool for the workload is too full. */
  predicate NoneFor(pools: seq<MemoryPool>, workload: nat, size: nat) {
    forall j | 0 <= j < |pools| :: pools[j].optimizedFor == workload ==> pools[j].used + size > pools[j].size
  }

  lemma FirstAfterNone(pools: seq<MemoryPool>, workload: nat, size: nat, i: nat)
    requires i < |pools| && NoneFor(pools[..i], workload, size)
    requires pools[i].optimizedFor == workload && pools[i].used + size <= pools[i].size
    ensures IsFirstFor(pools, workload, size, i) && !NoneFor(pools, workload, size)
    ensures forall j: nat | IsFirstFor(pools, workload, size, j) :: j == i
  {
    assert forall j | 0 <= j < i :: pools[j] == pools[..i][j];
  }

  /** Either there is exactly one first pool for a request, or there is none at all. */
  lemma {:induction false} FirstOrNone(pools: seq<MemoryPool>, workload: nat, size: nat, n: nat)
    requires n <= |pools|
    ensures NoneFor(pools[..n], workload, size) || exists i: nat :: i < n && IsFirstFor(pools, workload, size, i)
  {
    if n == 0 {
    } else {
      FirstOrNone(pools, workload, size, n - 1);
      var p := pools[n - 1];
      if NoneFor(pools[..n - 1], workload, size) {
        if p.optimizedFor == workload && p.used + size <= p.size {
          FirstAfterNone(pools, workload, size, n - 1);
        } else {
          assert pools[..n] == pools[..n - 1] + [p];
        }
      }
    }
  }

  /** Pool i's mark goes up by n bytes, and the block in between is on record. */
  predicate IsBump(pools: seq<MemoryPool>, records: map<nat, PoolAllocation>, i: nat, n: nat,
                   pools': seq<MemoryPool>, records': map<nat, PoolAllocation>) {
    && i < |pools|
    && pools' == pools[i := pools[i].(used := pools[i].used + n)]
    && records' == records[pools[i].start + pools[i].used := PoolAllocation(i, n)]
  }

  /** No pool has any frees on its books. */
  predicate FreshMetrics(pools: seq<MemoryPool>) {
    forall i | 0 <= i < |pools| :: pools[i].deallocations == pools[i].fragmentedSpace == 0
  }

  /**
   In a fresh manager each of the four workloads has an empty pool of its own, of 64 KB, 256 KB,
   1 MB and 4 MB, and a request goes there exactly if it is no larger.
   */
  lemma FreshPoolChoice(starts: seq<nat>, workload: nat, size: nat, i: nat)
    requires |starts| == 4
    ensures FreshMetrics(FreshPools(starts))
    ensures IsFirstFor(FreshPools(starts), workload, size, i) <==>
            i == workload &&
            ((i == 0 && size <= 65536) || (i == 1 && size <= 262144) ||
             (i == 2 && size <= 1048576) || (i == 3 && size <= 4194304))
  {
    var pools := FreshPools(starts);
    assert forall j: nat | j < 4 :: pools[j].optimizedFor == j && pools[j].used == 0;
    assert pools[0].size == 65536 && pools[1].size == 262144 && pools[2].size == 1048576 && pools[3].size == 4194304;
  }

  /** The live blocks of pool i, out of the allocation records of all pools. */
  function BlocksOf(records: map<nat, PoolAllocation>, i: nat): map<nat, nat> {
    map a | a in records && records[a].pool == i :: records[a].size
  }

  /** The records of every pool but i. */
  function OthersOf(records: map<nat, PoolAllocation>, i: nat): map<nat, PoolAllocation> {
    map a | a in records && records[a].pool != i :: records[a]
  }

  function PoolOf(pools: seq<MemoryPool>, records: map<nat, PoolAllocation>, i: nat): PB.Pool
    requires i < |pools|
  {
    PB.Pool(pools[i].start, pools[i].size, pools[i].used, BlocksOf(records, i))
  }

  ghost predicate PoolsApart(pools: seq<MemoryPool>) {
    forall i, j | 0 <= i < |pools| && 0 <= j < |pools| && i != j ::
      pools[i].start + pools[i].size <= pools[j].start || pools[j].start + pools[j].size <= pools[i].start
  }

  predicate InMemory(p: MemoryPool, length: nat) {
    p.used <= p.size && p.start + p.size <= length
  }

  /** Pool i's mark is at least the sum of its live sizes. */
  ghost predicate MarkCoversBlocks(p: MemoryPool, records: map<nat, PoolAllocation>, i: nat) {
    Sum(BlocksOf(records, i)) <= p.used
  }

  predicate InItsPool(pools: seq<MemoryPool>, a: nat, r: PoolAllocation) {
    r.pool < |pools| && pools[r.pool].start <= a && a + r.size <= pools[r.pool].start + pools[r.pool].size
  }

  /** Pools are disjoint regions of memory; each record lies in its pool; no mark is below the live sizes. */
  ghost predicate WellPlaced(pools: seq<MemoryPool>, records: map<nat, PoolAllocation>, length: nat) {
    && PoolsApart(pools)
    && (forall i: nat | i < |pools| :: InMemory(pools[i], length))
    && (forall a | a in records :: InItsPool(pools, a, records[a]))
    && (forall i: nat | i < |pools| :: MarkCoversBlocks(pools[i], records, i))
  }

  lemma BumpKeepsMark(p: MemoryPool, records: map<nat, PoolAllocation>, i: nat, a: nat, n: nat, j: nat)
    requires MarkCoversBlocks(p, records, j)
    ensures MarkCoversBlocks(if j == i then p.(used := p.used + n) else p, records[a := PoolAllocation(i, n)], j)
  {
    var b := BlocksOf(records, j);
    var c := BlocksOf(records[a := PoolAllocation(i, n)], j);
    if j == i {
      assert c == b[a := n];
      SumInsert(b, a, n);
    } else {
      assert c == b - {a};
      if a in b { SumRemove(b, a); } else { assert b - {a} == b; }
    }
  }

  lemma BumpKeepsMarks(pools: seq<MemoryPool>, records: map<nat, PoolAllocation>, i: nat, n: nat,
                       pools': seq<MemoryPool>, records': map<nat, PoolAllocation>)
    requires i < |pools| && forall j: nat | j < |pools| :: MarkCoversBlocks(pools[j], records, j)
    requires pools' == pools[i := pools[i].(used := pools[i].used + n)]
    requires records' == records[pools[i].start + pools[i].used := PoolAllocation(i, n)]
    ensures forall j: nat | j < |pools'| :: MarkCoversBlocks(pools'[j], records', j)
  {
    forall j: nat | j < |pools'| ensures MarkCoversBlocks(pools'[j], records', j) {
      BumpKeepsMark(pools[j], records, i, pools[i].start + pools[i].used, n, j);
    }
  }

  /** The same regions, with marks inside them. */
  lemma RegionsKeepApart(pools: seq<MemoryPool>, pools': seq<MemoryPool>, length: nat)
    requires PoolsApart(pools) && |pools'| == |pools| && forall i: nat | i < |pools| :: InMemory(pools[i], length)
    requires forall i: nat | i < |pools| :: pools'[i].start == pools[i].start && pools'[i].size == pools[i].size
    requires forall i: nat | i < |pools| :: pools'[i].used <= pools[i].size
    ensures PoolsApart(pools') && forall i: nat | i < |pools'| :: InMemory(pools'[i], length)
  {
    assert forall i: nat | i < |pools| :: InMemory(pools[i], length);
  }

  lemma BumpKeepsPlaces(pools: seq<MemoryPool>, records: map<nat, PoolAllocation>, i: nat, n: nat,
                        pools': seq<MemoryPool>, records': map<nat, PoolAllocation>)
    requires i < |pools| && pools[i].used + n <= pools[i].size
    requires forall a | a in records :: InItsPool(pools, a, records[a])
    requires pools' == pools[i := pools[i].(used := pools[i].used + n)]
    requires records' == records[pools[i].start + pools[i].used := PoolAllocation(i, n)]
    ensures forall a | a in records' :: InItsPool(pools', a, records'[a])
  {
  }

  lemma BumpKeepsWellPlaced(pools: seq<MemoryPool>, records: map<nat, PoolAllocation>, length: nat, i: nat, n: nat,
                            pools': seq<MemoryPool>, records': map<nat, PoolAllocation>)
    requires WellPlaced(pools, records, length) && i < |pools| && pools[i].used + n <= pools[i].size
    requires pools' == pools[i := pools[i].(used := pools[i].used + n)]
    requires records' == records[pools[i].start + pools[i].used := PoolAllocation(i, n)]
    ensures WellPlaced(pools', records', length)
  {
    BumpKeepsMarks(pools, records, i, n, pools', records');
    BumpKeepsPlaces(pools, records, i, n, pools', records');
    RegionsKeepApart(pools, pools', length);
  }

  lemma FreeFitsMark(pools: seq<MemoryPool>, records: map<nat, PoolAllocation>, length: nat, a: nat)
    requires WellPlaced(pools, records, length) && a in records
    ensures records[a].pool < |pools| && records[a].size <= pools[records[a].pool].used
  {
    assert InItsPool(pools, a, records[a]);
    assert MarkCoversBlocks(pools[records[a].pool], records, records[a].pool);
    SumRemove(BlocksOf(records, records[a].pool), a);
  }

  lemma FreeKeepsSums(pools: seq<MemoryPool>, records: map<nat, PoolAllocation>, a: nat, j: nat)
    requires a in records && j < |pools| && MarkCoversBlocks(pools[j], records, j)
    ensures Sum(BlocksOf(records - {a}, j)) <= pools[j].used - if j == records[a].pool then records[a].size else 0
  {
    var b := BlocksOf(records, j);
    if j == records[a].pool { SumRemove(b, a); }
    assert BlocksOf(records - {a}, j) == if j == records[a].pool then b - {a} else b;
  }

  lemma FreeKeepsWellPlaced(pools: seq<MemoryPool>, records: map<nat, PoolAllocation>, length: nat, a: nat)
    requires WellPlaced(pools, records, length) && length < U64 && a in records
    ensures var i := records[a].pool;
            && i < |pools| && records[a].size <= pools[i].used
            && pools[i].Released(records[a].size).used == pools[i].used - records[a].size
            && WellPlaced(pools[i := pools[i].Released(records[a].size)], records - {a}, length)
  {
    FreeFitsMark(pools, records, length, a);
    var i := records[a].pool;
    var pools' := pools[i := pools[i].Released(records[a].size)];
    assert pools'[i].used == pools[i].used - records[a].size;
    var records' := records - {a};
    forall j: nat | j < |pools| ensures MarkCoversBlocks(pools'[j], records', j) {
      FreeKeepsSums(pools, records, a, j);
    }
    forall b | b in records' ensures InItsPool(pools', b, records'[b]) {
      assert InItsPool(pools, b, records[b]);
    }
  }

  /** Pool i's addresses are not keys of another pool's records. */
  lemma OtherPoolsElsewhere(pools: seq<MemoryPool>, records: map<nat, PoolAllocation>, length: nat, i: nat, a: nat)
    requires WellPlaced(pools, records, length) && i < |pools|
    requires forall b | b in records :: records[b].size > 0
    requires pools[i].start <= a < pools[i].start + pools[i].size
    ensures a !in OthersOf(records, i)
  {
  }

  lemma RecordingAddsBlock(records: map<nat, PoolAllocation>, i: nat, a: nat, n: nat)
    requires a !in OthersOf(records, i)
    ensures BlocksOf(records[a := PoolAllocation(i, n)], i) == BlocksOf(records, i)[a := n]
    ensures OthersOf(records[a := PoolAllocation(i, n)], i) == OthersOf(records, i)
  {
  }

  /** An allocation from pool i is a bump of that pool, and leaves the blocks of the others alone. */
  lemma TakingIsPoolBump(pools: seq<MemoryPool>, records: map<nat, PoolAllocation>, length: nat, i: nat, n: nat)
    requires WellPlaced(pools, records, length) && i < |pools| && pools[i].used + n <= pools[i].size
    requires n > 0 && forall a | a in records :: records[a].size > 0
    ensures var a := pools[i].start + pools[i].used;
            var pools' := pools[i := pools[i].(used := pools[i].used + n)];
            var records' := records[a := PoolAllocation(i, n)];
            && PoolOf(pools', records', i) == PB.Bump(PoolOf(pools, records, i), n)
            && OthersOf(records', i) == OthersOf(records, i)
  {
    var a := pools[i].start + pools[i].used;
    OtherPoolsElsewhere(pools, records, length, i, a);
    RecordingAddsBlock(records, i, a, n);
  }

  lemma SameBlocksButOne(records: map<nat, PoolAllocation>, a: nat)
    requires a in records
    ensures var i := records[a].pool;
            && BlocksOf(records - {a}, i) == BlocksOf(records, i) - {a}
            && OthersOf(records - {a}, i) == OthersOf(records, i)
  {
  }

  /** A release in pool i is a free of that pool, and leaves the records of the others alone. */
  lemma ReleasingIsPoolFree(pools: seq<MemoryPool>, records: map<nat, PoolAllocation>, length: nat, a: nat)
    requires WellPlaced(pools, records, length) && length < U64 && a in records
    ensures var i := records[a].pool;
            && i < |pools| && records[a].size <= pools[i].used && a in BlocksOf(records, i)
            && PoolOf(pools[i := pools[i].Released(records[a].size)], records - {a}, i) ==
               PB.Free(PoolOf(pools, records, i), a)
            && OthersOf(records - {a}, i) == OthersOf(records, i)
  {
    FreeKeepsWellPlaced(pools, records, length, a);
    var i := records[a].pool;
    SameBlocksButOne(records, a);
  }

  /**
   Requests are rounded up to whole cache lines; only the 63 largest requests wrap, and they get
   an empty block.
   */
  lemma RoundingIsSafeExactly(size: nat)
    requires 0 < size < U64
    ensures size <= U64 - CACHE_LINE_SIZE <==> RoundToLine(size) >= size
    ensures size > U64 - CACHE_LINE_SIZE <==> RoundToLine(size) == 0
    ensures RoundToLine(size) % CACHE_LINE_SIZE == 0 && RoundToLine(size) < size + CACHE_LINE_SIZE
  {
  }

  // ----- compaction on the records

  /** The blocks of the pool that compaction has not reached after k steps. */
  ghost function Rest(s: PB.Pool, order: seq<nat>, k: nat): map<nat, nat> {
    map p | p in s.blocks && k < |order| && order[k] <= p :: s.blocks[p]
  }

  lemma RestStep(s: PB.Pool, order: seq<nat>, k: nat)
    requires PB.IsOrder(order, s.blocks) && k < |order|
    ensures order[k] in Rest(s, order, k) && Rest(s, order, k)[order[k]] == s.blocks[order[k]]
    ensures Rest(s, order, k + 1) == Rest(s, order, k) - {order[k]}
  {
  }

  /** Records after k steps of the compaction of pool i: k blocks packed, the rest where they were. */
  ghost predicate Relocated(records: map<nat, PoolAllocation>, before: map<nat, PoolAllocation>, i: nat,
                            s: PB.Pool, order: seq<nat>, k: nat)
    requires PB.Listed(order, s.blocks) && k <= |order|
  {
    && OthersOf(records, i) == OthersOf(before, i)
    && BlocksOf(records, i) == PB.PackedBlocks(s, order, k) + Rest(s, order, k)
  }

  function Relocate(records: map<nat, PoolAllocation>, i: nat, src: nat, dest: nat, n: nat): map<nat, PoolAllocation> {
    if src == dest then records else records[dest := PoolAllocation(i, n)] - {src}
  }

  lemma MapMove(packed: map<nat, nat>, rest: map<nat, nat>, src: nat, dest: nat)
    requires src in rest && src !in packed && dest !in packed && (dest == src || dest !in rest)
    ensures packed[dest := rest[src]] + (rest - {src}) ==
            if src == dest then packed + rest else (packed + rest)[dest := rest[src]] - {src}
  {
  }

  lemma RelocateEffect(records: map<nat, PoolAllocation>, i: nat, src: nat, dest: nat, n: nat)
    requires src in BlocksOf(records, i) && dest !in OthersOf(records, i)
    ensures var after := Relocate(records, i, src, dest, n);
            && OthersOf(after, i) == OthersOf(records, i)
            && BlocksOf(after, i) ==
               if src == dest then BlocksOf(records, i) else BlocksOf(records, i)[dest := n] - {src}
  {
  }

  lemma RelocateStep(records: map<nat, PoolAllocation>, before: map<nat, PoolAllocation>, i: nat,
                     s: PB.Pool, order: seq<nat>, k: nat)
    requires PB.Separated(s) && PB.IsOrder(order, s.blocks) && k < |order|
    requires Relocated(records, before, i, s, order, k)
    requires PB.NewAddress(s, order, k) !in OthersOf(before, i)
    ensures Relocated(Relocate(records, i, order[k], PB.NewAddress(s, order, k), s.blocks[order[k]]),
                      before, i, s, order, k + 1)
  {
    var dest, src := PB.NewAddress(s, order, k), order[k];
    PB.BlocksMoveDown(s, order, k);
    PB.PackedBelow(s, order, k);
    RestStep(s, order, k);
    MapMove(PB.PackedBlocks(s, order, k), Rest(s, order, k), src, dest);
    RelocateEffect(records, i, src, dest, s.blocks[src]);
  }

  /** What the compaction loop needs to know about block k: it moves down, within memory and its own pool. */
  lemma MoveStep(pools: seq<MemoryPool>, before: map<nat, PoolAllocation>, records: map<nat, PoolAllocation>,
                 length: nat, i: nat, order: seq<nat>, k: nat)
    requires WellPlaced(pools, before, length) && i < |pools| && k < |order|
    requires PB.Separated(PoolOf(pools, before, i)) && PB.IsOrder(order, BlocksOf(before, i))
    requires forall a | a in before :: before[a].size > 0
    requires Relocated(records, before, i, PoolOf(pools, before, i), order, k)
    ensures var s := PoolOf(pools, before, i);
            var dest, src, n := PB.NewAddress(s, order, k), order[k], s.blocks[order[k]];
            && dest <= src && src + n <= length
            && src in records && records[src].size == n
            && PB.NewAddress(s, order, k + 1) == dest + n
            && Relocated(Relocate(records, i, src, dest, n), before, i, s, order, k + 1)
  {
    var s := PoolOf(pools, before, i);
    PB.BlocksMoveDown(s, order, k);
    PB.NewAddressStep(s, order, k);
    OtherPoolsElsewhere(pools, before, length, i, PB.NewAddress(s, order, k));
    RelocateStep(records, before, i, s, order, k);
    RestStep(s, order, k);
    assert order[k] in BlocksOf(records, i);
  }

  // ----- what any compaction keeps

  /** The records of other pools are as before, if they are still there. */
  ghost predicate OthersKept(records: map<nat, PoolAllocation>, before: map<nat, PoolAllocation>, i: nat) {
    forall a | a in records && records[a].pool != i :: a in before && records[a] == before[a]
  }

  /** After k steps, each block of pool i is where a packed one is, or one not yet moved, and no larger. */
  ghost predicate Moved(records: map<nat, PoolAllocation>, i: nat, s: PB.Pool, order: seq<nat>, k: nat)
    requires PB.Listed(order, s.blocks) && k <= |order|
  {
    BoundedByEither(BlocksOf(records, i), PB.PackedBlocks(s, order, k), Rest(s, order, k))
  }

  /** Blocks packed at one and the same address can only differ if the first of them was empty. */
  lemma PackedAgain(s: PB.Pool, order: seq<nat>, k: nat)
    requires PB.Listed(order, s.blocks) && k < |order|
    requires PB.NewAddress(s, order, k) in PB.PackedBlocks(s, order, k)
    ensures PB.PackedBlocks(s, order, k)[PB.NewAddress(s, order, k)] == 0
  {
    PB.PackedInside(s, order, k);
  }

  lemma MovedStep(records: map<nat, PoolAllocation>, i: nat, s: PB.Pool, order: seq<nat>, k: nat)
    requires PB.IsOrder(order, s.blocks) && k < |order| && Moved(records, i, s, order, k)
    ensures Moved(Relocate(records, i, order[k], PB.NewAddress(s, order, k), s.blocks[order[k]]), i, s, order, k + 1)
  {
    RestStep(s, order, k);
    var dest := PB.NewAddress(s, order, k);
    if dest in PB.PackedBlocks(s, order, k) { PackedAgain(s, order, k); }
  }

  lemma MovedSum(records: map<nat, PoolAllocation>, i: nat, s: PB.Pool, order: seq<nat>)
    requires PB.IsOrder(order, s.blocks) && Moved(records, i, s, order, |order|)
    ensures Sum(BlocksOf(records, i)) <= Sum(s.blocks)
  {
    assert Rest(s, order, |order|) == map[];
    assert order[..|order|] == order;
    SumBoundedByEither(BlocksOf(records, i), PB.PackedBlocks(s, order, |order|), map[]);
    PB.PackedSumAtMost(s, order, |order|);
    PB.OrderTotal(order, s.blocks);
  }

  lemma OthersKeepSums(records: map<nat, PoolAllocation>, before: map<nat, PoolAllocation>, i: nat, j: nat)
    requires OthersKept(records, before, i) && j != i
    ensures Sum(BlocksOf(records, j)) <= Sum(BlocksOf(before, j))
  {
    SumBoundedByEither(BlocksOf(records, j), BlocksOf(before, j), map[]);
  }

  lemma MovedInside(records: map<nat, PoolAllocation>, i: nat, s: PB.Pool, order: seq<nat>, a: nat)
    requires PB.IsOrder(order, s.blocks) && Moved(records, i, s, order, |order|) && a in BlocksOf(records, i)
    ensures s.start <= a && a + BlocksOf(records, i)[a] <= s.start + Sum(s.blocks)
  {
    var packed := PB.PackedBlocks(s, order, |order|);
    assert Rest(s, order, |order|) == map[];
    assert order[..|order|] == order;
    PB.PackedInside(s, order, |order|);
    PB.OrderTotal(order, s.blocks);
    assert a in packed && BlocksOf(records, i)[a] <= packed[a];
  }

  function Compacted(p: MemoryPool, used: nat): MemoryPool {
    p.(used := used, deallocations := 0, fragmentedSpace := 0)
  }

  /** Whatever the blocks were, the pools and their records are well placed after a compaction. */
  lemma CompactionKeepsWellPlaced(pools: seq<MemoryPool>, before: map<nat, PoolAllocation>,
                                  records: map<nat, PoolAllocation>, length: nat, i: nat, order: seq<nat>)
    requires WellPlaced(pools, before, length) && i < |pools|
    requires PB.IsOrder(order, BlocksOf(before, i))
    requires OthersKept(records, before, i) && Moved(records, i, PoolOf(pools, before, i), order, |order|)
    ensures WellPlaced(pools[i := Compacted(pools[i], Sum(BlocksOf(before, i)))], records, length)
  {
    var s := PoolOf(pools, before, i);
    var pools' := pools[i := Compacted(pools[i], Sum(s.blocks))];
    assert MarkCoversBlocks(pools[i], before, i) && InMemory(pools[i], length);
    forall j: nat | j < |pools| ensures MarkCoversBlocks(pools'[j], records, j) {
      if j == i {
        MovedSum(records, i, s, order);
      } else {
        OthersKeepSums(records, before, i, j);
        assert MarkCoversBlocks(pools[j], before, j);
      }
    }
    forall a | a in records ensures InItsPool(pools', a, records[a]) {
      if records[a].pool == i {
        MovedInside(records, i, s, order, a);
      } else {
        assert InItsPool(pools, a, before[a]);
      }
    }
    RegionsKeepApart(pools, pools', length);
  }

  // ----- compaction on the bytes

  /** The n bytes at d in `after` are the n bytes that were at p in `before`. */
  ghost predicate Carried(before: seq<Byte>, after: seq<Byte>, d: nat, p: nat, n: nat) {
    d + n <= |after| && p + n <= |before| && after[d..d + n] == before[p..p + n]
  }

  /** Outside [lo, hi) nothing changed. */
  ghost predicate SameOutside(before: seq<Byte>, after: seq<Byte>, lo: nat, hi: nat) {
    |before| == |after| && forall a | 0 <= a < |after| && !(lo <= a < hi) :: after[a] == before[a]
  }

  /** memcpy as an ascending byte copy. */
  function Copied(bytes: seq<Byte>, dest: nat, src: nat, n: nat): (r: seq<Byte>)
    requires dest + n <= |bytes| && src + n <= |bytes|
    ensures |r| == |bytes|
  {
    if n == 0 then bytes
    else
      var r := Copied(bytes, dest, src, n - 1);
      r[dest + n - 1 := r[src + n - 1]]
  }

  lemma CarriedOneMore(bytes: seq<Byte>, r: seq<Byte>, dest: nat, src: nat, n: nat)
    requires Carried(bytes, r, dest, src, n) && SameOutside(bytes, r, dest, dest + n)
    requires dest <= src && src + n < |bytes|
    ensures var t := r[dest + n := r[src + n]];
            Carried(bytes, t, dest, src, n + 1) && SameOutside(bytes, t, dest, dest + n + 1)
  {
    var t := r[dest + n := r[src + n]];
    assert t[dest..dest + n] == r[dest..dest + n];
    assert t[dest..dest + n + 1] == t[dest..dest + n] + [bytes[src + n]];
    assert bytes[src..src + n + 1] == bytes[src..src + n] + [bytes[src + n]];
  }

  /** Copying down transports the bytes, also when the ranges overlap, and touches nothing else. */
  lemma {:induction false} CopiedDown(bytes: seq<Byte>, dest: nat, src: nat, n: nat)
    requires dest <= src && src + n <= |bytes|
    ensures Carried(bytes, Copied(bytes, dest, src, n), dest, src, n)
    ensures SameOutside(bytes, Copied(bytes, dest, src, n), dest, dest + n)
  {
    if n == 0 {
    } else {
      CopiedDown(bytes, dest, src, n - 1);
      var r := Copied(bytes, dest, src, n - 1);
      CarriedOneMore(bytes, r, dest, src, n - 1);
    }
  }

  /** The first k blocks of pool s hold, where compaction puts them, the bytes they held before. */
  ghost predicate CarriedBlocks(before: seq<Byte>, after: seq<Byte>, s: PB.Pool, order: seq<nat>, k: nat)
    requires PB.Listed(order, s.blocks) && k <= |order|
  {
    forall j: nat | j < k :: Carried(before, after, PB.NewAddress(s, order, j), order[j], s.blocks[order[j]])
  }

  lemma CarriedSurvives(before: seq<Byte>, mid: seq<Byte>, after: seq<Byte>, d: nat, p: nat, n: nat, lo: nat, hi: nat)
    requires Carried(before, mid, d, p, n) && SameOutside(mid, after, lo, hi) && d + n <= lo
    ensures Carried(before, after, d, p, n)
  {
  }

  lemma CarriedFresh(before: seq<Byte>, mid: seq<Byte>, after: seq<Byte>, lo: nat, d: nat, p: nat, n: nat)
    requires SameOutside(before, mid, lo, d) && d <= p && Carried(mid, after, d, p, n)
    ensures Carried(before, after, d, p, n)
  {
  }

  lemma CarryStep(before: seq<Byte>, mid: seq<Byte>, after: seq<Byte>, s: PB.Pool, order: seq<nat>, k: nat)
    requires PB.Separated(s) && PB.IsOrder(order, s.blocks) && k < |order|
    requires CarriedBlocks(before, mid, s, order, k)
    requires SameOutside(before, mid, s.start, PB.NewAddress(s, order, k))
    requires SameOutside(mid, after, PB.NewAddress(s, order, k), PB.NewAddress(s, order, k + 1))
    requires Carried(mid, after, PB.NewAddress(s, order, k), order[k], s.blocks[order[k]])
    ensures CarriedBlocks(before, after, s, order, k + 1)
    ensures SameOutside(before, after, s.start, PB.NewAddress(s, order, k + 1))
  {
    var d, d' := PB.NewAddress(s, order, k), PB.NewAddress(s, order, k + 1);
    PB.NewAddressStep(s, order, k);
    PB.BlocksMoveDown(s, order, k);
    CarriedFresh(before, mid, after, s.start, d, order[k], s.blocks[order[k]]);
    forall j: nat | j < k
      ensures Carried(before, after, PB.NewAddress(s, order, j), order[j], s.blocks[order[j]])
    {
      PB.NewAddressMonotone(s, order, j, k);
      CarriedSurvives(before, mid, after, PB.NewAddress(s, order, j), order[j], s.blocks[order[j]], d, d');
    }
  }

  /**
   What compacting pool i does: its blocks end up packed in address order, each with the bytes it
   had; its mark is the sum of its live sizes; nothing else moves.
   */
  ghost predicate DefragmentsTo(pools: seq<MemoryPool>, records: map<nat, PoolAllocation>, bytes: seq<Byte>, i: nat,
                                pools': seq<MemoryPool>, records': map<nat, PoolAllocation>, bytes': seq<Byte>,
                                order: seq<nat>)
    requires i < |pools|
  {
    var s := PoolOf(pools, records, i);
    && PB.IsOrder(order, s.blocks)
    && pools' == pools[i := Compacted(pools[i], Sum(s.blocks))]
    && PoolOf(pools', records', i) == PB.Packed(s, order)
    && OthersOf(records', i) == OthersOf(records, i)
    && CarriedBlocks(bytes, bytes', s, order, |order|)
    && SameOutside(bytes, bytes', s.start, s.start + Sum(s.blocks))
  }

  // ----- the whole compaction

  /** In the middle of a compaction: records, memory, and the address that the next block goes to. */
  datatype Image = Image(records: map<nat, PoolAllocation>, bytes: seq<Byte>, dest: nat)

  function MoveOne(m: Image, i: nat, src: nat, n: nat): (r: Image)
    requires m.dest + n <= |m.bytes| && src + n <= |m.bytes|
    ensures |r.bytes| == |m.bytes|
  {
    Image(Relocate(m.records, i, src, m.dest, n),
          if src == m.dest then m.bytes else Copied(m.bytes, m.dest, src, n),
          m.dest + n)
  }

  /** The blocks lie in memory, where they are and where they go. */
  predicate Movable(s: PB.Pool, order: seq<nat>, length: nat) {
    && PB.Listed(order, s.blocks)
    && (forall p | p in s.blocks :: p + s.blocks[p] <= length)
    && s.start + PB.Total(s.blocks, order) <= length
  }

  lemma NewAddressInside(s: PB.Pool, order: seq<nat>, k: nat, length: nat)
    requires Movable(s, order, length) && k < |order|
    ensures PB.NewAddress(s, order, k + 1) == PB.NewAddress(s, order, k) + s.blocks[order[k]] <= length
  {
    assert order[..|order|] == order;
    PB.NewAddressStep(s, order, k);
    if k + 1 < |order| { PB.NewAddressMonotone(s, order, k + 1, |order|); }
  }

  /** The compaction of pool i after k blocks, one after the other. */
  function MoveAll(records: map<nat, PoolAllocation>, bytes: seq<Byte>, i: nat,
                   s: PB.Pool, order: seq<nat>, k: nat): (m: Image)
    requires Movable(s, order, |bytes|) && k <= |order|
    ensures |m.bytes| == |bytes| && m.dest == PB.NewAddress(s, order, k)
  {
    if k == 0 then Image(records, bytes, s.start)
    else
      NewAddressInside(s, order, k - 1, |bytes|);
      MoveOne(MoveAll(records, bytes, i, s, order, k - 1), i, order[k - 1], s.blocks[order[k - 1]])
  }

  lemma MoveAllStep(records: map<nat, PoolAllocation>, bytes: seq<Byte>, i: nat, s: PB.Pool, order: seq<nat>, k: nat)
    requires Movable(s, order, |bytes|) && k < |order|
    ensures var m, n := MoveAll(records, bytes, i, s, order, k), s.blocks[order[k]];
            && m.dest + n <= |m.bytes| && order[k] + n <= |m.bytes|
            && MoveAll(records, bytes, i, s, order, k + 1) == MoveOne(m, i, order[k], n)
  {
    NewAddressInside(s, order, k, |bytes|);
  }

  lemma WellPlacedIsMovable(pools: seq<MemoryPool>, records: map<nat, PoolAllocation>, length: nat, i: nat,
                            order: seq<nat>)
    requires WellPlaced(pools, records, length) && i < |pools| && PB.IsOrder(order, BlocksOf(records, i))
    ensures Movable(PoolOf(pools, records, i), order, length)
  {
    PB.OrderTotal(order, BlocksOf(records, i));
    assert InMemory(pools[i], length) && MarkCoversBlocks(pools[i], records, i);
    forall p | p in BlocksOf(records, i) ensures p + BlocksOf(records, i)[p] <= length {
      assert InItsPool(pools, p, records[p]);
    }
  }

  lemma MoveOneKeepsRecords(m: Image, before: map<nat, PoolAllocation>, i: nat, s: PB.Pool, order: seq<nat>, k: nat)
    requires PB.IsOrder(order, s.blocks) && k < |order| && m.dest == PB.NewAddress(s, order, k)
    requires m.dest + s.blocks[order[k]] <= |m.bytes| && order[k] + s.blocks[order[k]] <= |m.bytes|
    requires OthersKept(m.records, before, i) && Moved(m.records, i, s, order, k)
    ensures var r := MoveOne(m, i, order[k], s.blocks[order[k]]);
            OthersKept(r.records, before, i) && Moved(r.records, i, s, order, k + 1)
  {
    MovedStep(m.records, i, s, order, k);
  }

  lemma NothingMoved(records: map<nat, PoolAllocation>, i: nat, s: PB.Pool, order: seq<nat>)
    requires PB.IsOrder(order, s.blocks) && s.blocks == BlocksOf(records, i)
    ensures OthersKept(records, records, i) && Moved(records, i, s, order, 0)
  {
    assert Rest(s, order, 0) == s.blocks;
  }

  lemma {:induction false} MoveAllKeepsRecords(records: map<nat, PoolAllocation>, bytes: seq<Byte>, i: nat,
                                               s: PB.Pool, order: seq<nat>, k: nat)
    requires PB.IsOrder(order, s.blocks) && s.blocks == BlocksOf(records, i)
    requires Movable(s, order, |bytes|) && k <= |order|
    ensures var m := MoveAll(records, bytes, i, s, order, k);
            OthersKept(m.records, records, i) && Moved(m.records, i, s, order, k)
  {
    if k == 0 {
      NothingMoved(records, i, s, order);
    } else {
      MoveAllKeepsRecords(records, bytes, i, s, order, k - 1);
      MoveAllStep(records, bytes, i, s, order, k - 1);
      MoveOneKeepsRecords(MoveAll(records, bytes, i, s, order, k - 1), records, i, s, order, k - 1);
    }
  }

  lemma MoveAllEnds(records: map<nat, PoolAllocation>, bytes: seq<Byte>, i: nat, s: PB.Pool, order: seq<nat>)
    requires PB.IsOrder(order, s.blocks) && Movable(s, order, |bytes|)
    ensures MoveAll(records, bytes, i, s, order, |order|).dest == s.start + Sum(s.blocks)
  {
    assert order[..|order|] == order;
    PB.OrderTotal(order, s.blocks);
  }

  /**
   What the compaction of pool i makes of pools, records and memory: its blocks, by address in
   `order`, are moved one after the other, and the mark goes to where the last one ends.
   */
  ghost predicate IsDefragmented(pools: seq<MemoryPool>, records: map<nat, PoolAllocation>, bytes: seq<Byte>, i: nat,
                                 pools': seq<MemoryPool>, records': map<nat, PoolAllocation>, bytes': seq<Byte>,
                                 order: seq<nat>) {
    && i < |pools|
    && PB.IsOrder(order, BlocksOf(records, i))
    && Movable(PoolOf(pools, records, i), order, |bytes|)
    && var m := MoveAll(records, bytes, i, PoolOf(pools, records, i), order, |order|);
       && records' == m.records && bytes' == m.bytes
       && pools' == pools[i := Compacted(pools[i], m.dest - pools[i].start)]
  }

  lemma DefragmentedMark(pools: seq<MemoryPool>, records: map<nat, PoolAllocation>, bytes: seq<Byte>, i: nat,
                         pools': seq<MemoryPool>, records': map<nat, PoolAllocation>, bytes': seq<Byte>,
                         order: seq<nat>)
    requires IsDefragmented(pools, records, bytes, i, pools', records', bytes', order)
    ensures pools' == pools[i := Compacted(pools[i], Sum(BlocksOf(records, i)))]
  {
    MoveAllEnds(records, bytes, i, PoolOf(pools, records, i), order);
  }

  lemma DefragmentedIsWellPlaced(pools: seq<MemoryPool>, records: map<nat, PoolAllocation>, bytes: seq<Byte>, i: nat,
                                 pools': seq<MemoryPool>, records': map<nat, PoolAllocation>, bytes': seq<Byte>,
                                 order: seq<nat>)
    requires WellPlaced(pools, records, |bytes|)
    requires IsDefragmented(pools, records, bytes, i, pools', records', bytes', order)
    ensures WellPlaced(pools', records', |bytes'|)
  {
    var s := PoolOf(pools, records, i);
    MoveAllKeepsRecords(records, bytes, i, s, order, |order|);
    DefragmentedMark(pools, records, bytes, i, pools', records', bytes', order);
    CompactionKeepsWellPlaced(pools, records, records', |bytes|, i, order);
  }

  // ----- when a free compacts

  /** The pools, the records of their blocks, and the memory. */
  datatype Store = Store(pools: seq<MemoryPool>, records: map<nat, PoolAllocation>, bytes: seq<Byte>)

  /** The free of a pool block: one pool's mark and metrics change, and the pool is compacted or not. */
  ghost predicate IsReleased(s: Store, ptr: nat, t: Store, compacted: bool, order: seq<nat>) {
    && ptr in s.records
    && var i := s.records[ptr].pool;
       && i < |s.pools|
       && var pools' := s.pools[i := s.pools[i].Released(s.records[ptr].size)];
          && var records' := s.records - {ptr};
             && compacted == pools'[i].ShouldDefragment()
             && if compacted then
                  IsDefragmented(pools', records', s.bytes, i, t.pools, t.records, t.bytes, order)
                else t == Store(pools', records', s.bytes)
  }

  datatype StoreEvent = Taken(pool: nat, size: nat)
                      | Freed(ptr: nat, compacted: bool, order: seq<nat>)
                      | Written(bytes: seq<Byte>)

  ghost predicate Next(s: Store, e: StoreEvent, t: Store) {
    match e
    case Taken(i, n) =>
      && i < |s.pools|
      && t == s.(pools := s.pools[i := s.pools[i].(used := s.pools[i].used + n)],
                 records := s.records[s.pools[i].start + s.pools[i].used := PoolAllocation(i, n)])
    case Freed(ptr, compacted, order) => IsReleased(s, ptr, t, compacted, order)
    case Written(bytes) => t == s.(bytes := bytes)
  }

  ghost predicate IsRun(states: seq<Store>, events: seq<StoreEvent>) {
    |states| == |events| + 1 && forall i | 0 <= i < |events| :: Next(states[i], events[i], states[i + 1])
  }

  /** How many blocks, and how many bytes, were freed in pool i by the first k events since it was last compacted. */
  function FreedSince(states: seq<Store>, events: seq<StoreEvent>, i: nat, k: nat): (nat, nat)
    requires k <= |events| < |states|
  {
    if k == 0 then (0, 0)
    else
      var (count, bytes) := FreedSince(states, events, i, k - 1);
      match events[k - 1]
      case Freed(ptr, compacted, _) =>
        var records := states[k - 1].records;
        if ptr !in records || records[ptr].pool != i then (count, bytes)
        else if compacted then (0, 0)
        else (count + 1, bytes + records[ptr].size)
      case _ => (count, bytes)
  }

  lemma {:induction false} RunKeepsPools(states: seq<Store>, events: seq<StoreEvent>, k: nat)
    requires IsRun(states, events) && k <= |events|
    ensures |states[k].pools| == |states[0].pools|
  {
    if k == 0 {
    } else {
      RunKeepsPools(states, events, k - 1);
      assert Next(states[k - 1], events[k - 1], states[k]);
    }
  }

  lemma {:induction false} MetricsTally(states: seq<Store>, events: seq<StoreEvent>, i: nat, k: nat)
    requires IsRun(states, events) && FreshMetrics(states[0].pools) && i < |states[0].pools| && k <= |events|
    ensures |states[k].pools| == |states[0].pools|
    ensures var p := states[k].pools[i];
            (p.deallocations, p.fragmentedSpace) == FreedSince(states, events, i, k)
  {
    if k == 0 {
    } else {
      MetricsTally(states, events, i, k - 1);
      assert Next(states[k - 1], events[k - 1], states[k]);
    }
  }

  /**
   Over any run of allocations, frees and writes, a free compacts its pool exactly when the bytes
   freed there since the last compaction, with its own, come to more than 1 MB.
   */
  lemma CompactsExactly(states: seq<Store>, events: seq<StoreEvent>, k: nat)
    requires IsRun(states, events) && FreshMetrics(states[0].pools)
    requires k < |events| && events[k].Freed?
    ensures events[k].ptr in states[k].records
    ensures var r := states[k].records[events[k].ptr];
            events[k].compacted <==> FreedSince(states, events, r.pool, k).1 + r.size > 1048576
  {
    assert Next(states[k], events[k], states[k + 1]);
    RunKeepsPools(states, events, k);
    MetricsTally(states, events, states[k].records[events[k].ptr].pool, k);
  }

  // ----- compaction of disjoint blocks

  /** After k blocks: their records are packed, their bytes are where they belong, nothing else changed. */
  ghost predicate Compacting(before: map<nat, PoolAllocation>, bytes: seq<Byte>, m: Image,
                             i: nat, s: PB.Pool, order: seq<nat>, k: nat)
    requires PB.Listed(order, s.blocks) && k <= |order|
  {
    && m.dest == PB.NewAddress(s, order, k)
    && Relocated(m.records, before, i, s, order, k)
    && CarriedBlocks(bytes, m.bytes, s, order, k)
    && SameOutside(bytes, m.bytes, s.start, m.dest)
  }

  lemma MoveOneCarries(m: Image, i: nat, src: nat, n: nat)
    requires m.dest <= src && src + n <= |m.bytes|
    ensures var r := MoveOne(m, i, src, n);
            Carried(m.bytes, r.bytes, m.dest, src, n) && SameOutside(m.bytes, r.bytes, m.dest, m.dest + n)
  {
    if src == m.dest {
    } else {
      CopiedDown(m.bytes, m.dest, src, n);
    }
  }

  lemma CompactingStep(pools: seq<MemoryPool>, before: map<nat, PoolAllocation>, bytes: seq<Byte>, m: Image,
                       i: nat, order: seq<nat>, k: nat)
    requires WellPlaced(pools, before, |bytes|) && i < |pools| && k < |order|
    requires PB.Separated(PoolOf(pools, before, i)) && PB.IsOrder(order, BlocksOf(before, i))
    requires forall a | a in before :: before[a].size > 0
    requires Compacting(before, bytes, m, i, PoolOf(pools, before, i), order, k)
    ensures var n := BlocksOf(before, i)[order[k]];
            && m.dest + n <= |m.bytes| && order[k] + n <= |m.bytes|
            && Compacting(before, bytes, MoveOne(m, i, order[k], n), i, PoolOf(pools, before, i), order, k + 1)
  {
    var s := PoolOf(pools, before, i);
    MoveStep(pools, before, m.records, |bytes|, i, order, k);
    var n := s.blocks[order[k]];
    MoveOneCarries(m, i, order[k], n);
    CarryStep(bytes, m.bytes, MoveOne(m, i, order[k], n).bytes, s, order, k);
  }

  lemma CompactingStart(before: map<nat, PoolAllocation>, bytes: seq<Byte>, i: nat, s: PB.Pool, order: seq<nat>)
    requires PB.IsOrder(order, s.blocks) && s.blocks == BlocksOf(before, i)
    ensures Compacting(before, bytes, Image(before, bytes, s.start), i, s, order, 0)
  {
    assert Rest(s, order, 0) == s.blocks;
  }

  lemma {:induction false} MoveAllCompacts(pools: seq<MemoryPool>, before: map<nat, PoolAllocation>, bytes: seq<Byte>,
                                           i: nat, order: seq<nat>, k: nat)
    requires WellPlaced(pools, before, |bytes|) && i < |pools| && k <= |order|
    requires PB.Separated(PoolOf(pools, before, i)) && PB.IsOrder(order, BlocksOf(before, i))
    requires forall a | a in before :: before[a].size > 0
    requires Movable(PoolOf(pools, before, i), order, |bytes|)
    ensures var s := PoolOf(pools, before, i);
            Compacting(before, bytes, MoveAll(before, bytes, i, s, order, k), i, s, order, k)
  {
    var s := PoolOf(pools, before, i);
    if k == 0 {
      CompactingStart(before, bytes, i, s, order);
    } else {
      MoveAllCompacts(pools, before, bytes, i, order, k - 1);
      CompactingStep(pools, before, bytes, MoveAll(before, bytes, i, s, order, k - 1), i, order, k - 1);
      MoveAllStep(before, bytes, i, s, order, k - 1);
    }
  }

  lemma CompactingEnd(before: map<nat, PoolAllocation>, bytes: seq<Byte>, m: Image, i: nat, s: PB.Pool, order: seq<nat>)
    requires PB.IsOrder(order, s.blocks) && Compacting(before, bytes, m, i, s, order, |order|)
    ensures m.dest == s.start + Sum(s.blocks)
    ensures OthersOf(m.records, i) == OthersOf(before, i)
    ensures BlocksOf(m.records, i) == PB.PackedBlocks(s, order, |order|)
    ensures CarriedBlocks(bytes, m.bytes, s, order, |order|)
    ensures SameOutside(bytes, m.bytes, s.start, s.start + Sum(s.blocks))
  {
    assert order[..|order|] == order;
    PB.OrderTotal(order, s.blocks);
    assert Rest(s, order, |order|) == map[];
  }

  /**
   The compaction of a pool of disjoint blocks, with no empty record in any pool: every block keeps
   its bytes, at its packed place, and nothing else moves.
   */
  lemma CompactionKeepsContents(pools: seq<MemoryPool>, records: map<nat, PoolAllocation>, bytes: seq<Byte>, i: nat,
                                pools': seq<MemoryPool>, records': map<nat, PoolAllocation>, bytes': seq<Byte>,
                                order: seq<nat>)
    requires WellPlaced(pools, records, |bytes|)
    requires IsDefragmented(pools, records, bytes, i, pools', records', bytes', order)
    requires PB.Separated(PoolOf(pools, records, i)) && forall a | a in records :: records[a].size > 0
    ensures DefragmentsTo(pools, records, bytes, i, pools', records', bytes', order)
  {
    var s := PoolOf(pools, records, i);
    MoveAllCompacts(pools, records, bytes, i, order, |order|);
    CompactingEnd(records, bytes, MoveAll(records, bytes, i, s, order, |order|), i, s, order);
    DefragmentedMark(pools, records, bytes, i, pools', records', bytes', order);
    PB.OrderTotal(order, s.blocks);
  }

  /** std::sort of a list of distinct addresses, one insertion at a time. */
  function InsertSorted(s: seq<nat>, x: nat): (r: seq<nat>)
    requires forall j, k | 0 <= j < k < |s| :: s[j] < s[k]
    requires x !in s
    ensures forall j, k | 0 <= j < k < |r| :: r[j] < r[k]
    ensures forall y :: y in r <==> y in s || y == x
  {
    if s == [] then [x]
    else if x < s[0] then [x] + s
    else
      assert s == [s[0]] + s[1..];
      var t := InsertSorted(s[1..], x);
      assert forall k | 0 <= k < |t| :: t[k] in t;
      [s[0]] + t
  }

  class UnifiedMemoryManager {
    var memory: array<Byte>
    var pools: seq<MemoryPool>
    var poolAllocations: map<nat, PoolAllocation>
    var tlbCache: array<PM.TlbEntry>
    var pageTable: map<nat, nat>
    var pageAllocations: map<nat, nat>
    var physicalPagePool: set<nat>

    /** Pools are disjoint regions of memory, their records belong to them and their marks lie inside. */
    ghost predicate Valid()
      reads this
    {
      && tlbCache.Length == PM.TLB_SIZE
      && (memory as object) != (tlbCache as object)
      && memory.Length < U64
      && WellPlaced(pools, poolAllocations, memory.Length)
    }

    function Pages(): PM.PageMap
      reads this, tlbCache
    {
      PM.PageMap(pageTable, tlbCache[..], pageAllocations, physicalPagePool)
    }

    /** `starts` is where the page allocator placed the pools, `frames` are all physical pages. */
    constructor (length: nat, starts: seq<nat>, frames: set<nat>)
      requires length < U64 && |starts| == |POOL_KILOBYTES|
      requires PoolsApart(FreshPools(starts))
      requires forall i | 0 <= i < |starts| :: starts[i] + POOL_KILOBYTES[i] * 1024 <= length
      ensures Valid() && fresh(memory) && fresh(tlbCache) && memory.Length == length
      ensures pools == FreshPools(starts) && poolAllocations == map[]
      ensures Pages() == PM.Initial(frames)
    {
      memory := new Byte[length];
      pools := FreshPools(starts);
      poolAllocations := map[];
      tlbCache := new PM.TlbEntry[PM.TLB_SIZE](i => PM.TlbEntry(0, 0, false));
      pageTable, pageAllocations, physicalPagePool := map[], map[], frames;
      new;
      assert tlbCache[..] == PM.Initial(frames).tlb;
      forall i: nat | i < |pools| ensures MarkCoversBlocks(pools[i], poolAllocations, i) {
        assert BlocksOf(map[], i) == map[];
      }
    }

    method UpdateTLB(virtualAddr: nat, physicalAddr: nat)
      requires tlbCache.Length == PM.TLB_SIZE
      modifies tlbCache
      ensures tlbCache[..] ==
              old(tlbCache[..])[virtualAddr % PM.TLB_SIZE := PM.TlbEntry(virtualAddr, physicalAddr, true)]
    {
      var index := virtualAddr % PM.TLB_SIZE;
      tlbCache[index] := PM.TlbEntry(virtualAddr, physicalAddr, true);
    }

    method InvalidateTLBEntry(virtualAddr: nat)
      requires tlbCache.Length == PM.TLB_SIZE
      modifies tlbCache
      ensures var index := virtualAddr % PM.TLB_SIZE;
              tlbCache[..] == old(tlbCache[..])[index := old(tlbCache[index]).(valid := false)]
    {
      var index := virtualAddr % PM.TLB_SIZE;
      tlbCache[index] := tlbCache[index].(valid := false);
    }

    /** The page fallback: `frames` are the physical pages handed out, one per page. */
    method MapRange(virtualAddr: nat, frames: seq<nat>)
      requires tlbCache.Length == PM.TLB_SIZE
      modifies this`pageTable, this`pageAllocations, this`physicalPagePool, tlbCache
      ensures Pages() == old(Pages()).Allocate(virtualAddr, frames)
    {
      for i := 0 to |frames|
        invariant Pages() == old(Pages()).MapPages(virtualAddr, frames[..i])
      {
        var vAddr := virtualAddr + i * PAGE_SIZE;
        physicalPagePool := physicalPagePool - {frames[i]};
        pageTable := pageTable[vAddr := frames[i]];
        UpdateTLB(vAddr, frames[i]);
        assert frames[..i + 1][..i] == frames[..i];
      }
      assert frames[..|frames|] == frames;
      pageAllocations := pageAllocations[virtualAddr := |frames|];
    }

    method UnmapRange(virtualAddr: nat, numPages: nat)
      requires tlbCache.Length == PM.TLB_SIZE
      modifies this`pageTable, this`physicalPagePool, tlbCache
      ensures Pages() == old(Pages()).UnmapPages(virtualAddr, numPages)
    {
      for i := 0 to numPages
        invariant Pages() == old(Pages()).UnmapPages(virtualAddr, i)
      {
        var pageAddr := virtualAddr + i * PAGE_SIZE;
        InvalidateTLBEntry(pageAddr);
        if pageAddr in pageTable {
          physicalPagePool := physicalPagePool + {pageTable[pageAddr]};
          pageTable := pageTable - {pageAddr};
        }
      }
    }

    /** Moves pool i's bump mark up by n and records the block in between. */
    method TakeFromPool(i: nat, n: nat) returns (address: nat)
      requires Valid() && i < |pools| && pools[i].used + n <= pools[i].size
      modifies this`pools, this`poolAllocations
      ensures Valid()
      ensures address == old(pools)[i].start + old(pools)[i].used
      ensures pools == old(pools)[i := old(pools)[i].(used := old(pools)[i].used + n)]
      ensures poolAllocations == old(poolAllocations)[address := PoolAllocation(i, n)]
    {
      ghost var before, records := pools, poolAllocations;
      address := pools[i].start + pools[i].used;
      pools := pools[i := pools[i].(used := pools[i].used + n)];
      poolAllocations := poolAllocations[address := PoolAllocation(i, n)];
      BumpKeepsWellPlaced(before, records, memory.Length, i, n, pools, poolAllocations);
    }

    /** The pool attempt: the first pool for the workload whose bump mark leaves room for n bytes. */
    method BumpAllocate(n: nat, workload: nat) returns (ptr: Option<nat>)
      requires Valid()
      modifies this`pools, this`poolAllocations
      ensures Valid()
      ensures ptr == None <==> NoneFor(old(pools), workload, n)
      ensures ptr == None ==> pools == old(pools) && poolAllocations == old(poolAllocations)
      ensures forall i: nat | IsFirstFor(old(pools), workload, n, i) ::
                && ptr == Some(old(pools)[i].start + old(pools)[i].used)
                && IsBump(old(pools), old(poolAllocations), i, n, pools, poolAllocations)
    {
      for i := 0 to |pools|
        invariant pools == old(pools) && poolAllocations == old(poolAllocations)
        invariant NoneFor(pools[..i], workload, n)
      {
        if pools[i].optimizedFor == workload && pools[i].size >= n {
          var offset := pools[i].used;
          if offset + n <= pools[i].size {
            FirstAfterNone(pools, workload, n, i);
            var address := TakeFromPool(i, n);
            return Some(address);
          }
        }
      }
      return None;
    }

    /**
     `grant` is the page allocator's answer if it is asked, `frames` are the physical pages it then
     gets. The result is None for a null pointer; `asked` says whether the page allocator was asked.
     */
    method AllocateMemory(size: nat, workload: nat, grant: Option<nat>, frames: seq<nat>)
      returns (ptr: Option<nat>, asked: bool)
      requires Valid() && size < U64 && |frames| == PageCount(RoundToLine(size))
      modifies this`pools, this`poolAllocations, this`pageTable, this`pageAllocations, this`physicalPagePool, tlbCache
      ensures Valid()
      ensures size == 0 ==> ptr == None
      ensures asked <==> size > 0 && NoneFor(old(pools), workload, RoundToLine(size))
      ensures asked ==> ptr == grant
      ensures forall i: nat | size > 0 && IsFirstFor(old(pools), workload, RoundToLine(size), i) ::
                && ptr == Some(old(pools)[i].start + old(pools)[i].used)
                && IsBump(old(pools), old(poolAllocations), i, RoundToLine(size), pools, poolAllocations)
      ensures size == 0 || asked ==> pools == old(pools) && poolAllocations == old(poolAllocations)
      ensures Pages() == if asked && grant.Some? then old(Pages()).Allocate(grant.value, frames) else old(Pages())
    {
      if size == 0 { return None, false; }
      ptr := BumpAllocate(RoundToLine(size), workload);
      asked := ptr.None?;
      if asked && grant.Some? {
        ptr := grant;
        MapRange(grant.value, frames);
      }
    }

    // ----- compaction

    /** memcpy as an ascending byte copy. */
    method CopyBytes(dest: nat, src: nat, n: nat)
      requires dest + n <= memory.Length && src + n <= memory.Length
      modifies memory
      ensures memory[..] == Copied(old(memory[..]), dest, src, n)
    {
      for j := 0 to n
        invariant memory[..] == Copied(old(memory[..]), dest, src, j)
      {
        memory[dest + j] := memory[src + j];
      }
    }

    /** The live blocks of pool i, in address order. */
    method CollectLive(i: nat) returns (order: seq<nat>)
      requires i < |pools|
      ensures PB.IsOrder(order, PoolOf(pools, poolAllocations, i).blocks)
    {
      order := [];
      var todo := poolAllocations.Keys;
      ghost var blocks := PoolOf(pools, poolAllocations, i).blocks;
      while todo != {}
        invariant todo <= poolAllocations.Keys
        invariant forall j, k | 0 <= j < k < |order| :: order[j] < order[k]
        invariant forall p | p in order :: p in blocks && p !in todo
        invariant forall p | p in blocks && p !in todo :: p in order
        decreases todo
      {
        var p :| p in todo;
        todo := todo - {p};
        if poolAllocations[p].pool == i {
          order := InsertSorted(order, p);
        }
      }
      assert forall j | 0 <= j < |order| :: order[j] in order;
    }

    /** One block of the compaction: copy the bytes and re-key the record. */
    method MoveBlock(i: nat, ptr: nat, dest: nat, size: nat)
      requires dest + size <= memory.Length && ptr + size <= memory.Length
      modifies this`poolAllocations, memory
      ensures Image(poolAllocations, memory[..], dest + size) ==
              MoveOne(Image(old(poolAllocations), old(memory[..]), dest), i, ptr, size)
    {
      if ptr != dest {
        CopyBytes(dest, ptr, size);
        poolAllocations := poolAllocations[dest := PoolAllocation(i, size)];
        poolAllocations := poolAllocations - {ptr};
      }
    }

    /** The compaction loop: moves the listed blocks, with the sizes they had at the start. */
    method MoveBlocks(i: nat, live: seq<nat>, sizes: map<nat, nat>) returns (dest: nat)
      requires i < |pools| && sizes == BlocksOf(poolAllocations, i)
      requires Movable(PoolOf(pools, poolAllocations, i), live, memory.Length)
      modifies this`poolAllocations, memory
      ensures Image(poolAllocations, memory[..], dest) ==
              MoveAll(old(poolAllocations), old(memory[..]), i, old(PoolOf(pools, poolAllocations, i)), live, |live|)
    {
      ghost var s := PoolOf(pools, poolAllocations, i);
      ghost var before, bytes := poolAllocations, memory[..];
      dest := pools[i].start;
      for k := 0 to |live|
        invariant Image(poolAllocations, memory[..], dest) == MoveAll(before, bytes, i, s, live, k)
      {
        NewAddressInside(s, live, k, |bytes|);
        MoveBlock(i, live[k], dest, sizes[live[k]]);
        dest := dest + sizes[live[k]];
      }
    }

    /** Moves the live blocks of pool i to its start, in address order. */
    method DefragmentPool(i: nat) returns (ghost order: seq<nat>)
      requires Valid() && i < |pools|
      modifies this`pools, this`poolAllocations, memory
      ensures Valid()
      ensures if old(pools)[i].ShouldDefragment() then
                IsDefragmented(old(pools), old(poolAllocations), old(memory[..]), i,
                               pools, poolAllocations, memory[..], order)
              else
                pools == old(pools) && poolAllocations == old(poolAllocations) && memory[..] == old(memory[..])
    {
      if !pools[i].ShouldDefragment() { return []; }
      var live := CollectLive(i);
      order := live;
      ghost var before, records, bytes := pools, poolAllocations, memory[..];
      WellPlacedIsMovable(before, records, |bytes|, i, live);
      var dest := MoveBlocks(i, live, BlocksOf(poolAllocations, i));
      pools := pools[i := Compacted(pools[i], dest - pools[i].start)];
      DefragmentedIsWellPlaced(before, records, bytes, i, pools, poolAllocations, memory[..], live);
    }

    /**
     Releases a pool block, compacting its pool when enough was freed, or a page allocation.
     `compacted` says whether it did, and `order` lists the blocks that were then moved.
     */
    method FreeMemory(ptr: nat) returns (ok: bool, compacted: bool, ghost order: seq<nat>)
      requires Valid()
      modifies this`pools, this`poolAllocations, this`pageTable, this`pageAllocations, this`physicalPagePool
      modifies memory, tlbCache
      ensures Valid()
      ensures ptr !in old(poolAllocations) ==>
                && (Pages(), ok) == old(Pages()).Free(ptr)
                && pools == old(pools) && poolAllocations == old(poolAllocations) && memory[..] == old(memory[..])
      ensures ptr in old(poolAllocations) ==>
                && ok && Pages() == old(Pages())
                && IsReleased(Store(old(pools), old(poolAllocations), old(memory[..])), ptr,
                              Store(pools, poolAllocations, memory[..]), compacted, order)
    {
      order := [];
      if ptr in poolAllocations {
        var i, size := poolAllocations[ptr].pool, poolAllocations[ptr].size;
        FreeKeepsWellPlaced(pools, poolAllocations, memory.Length, ptr);
        ReleasingIsPoolFree(pools, poolAllocations, memory.Length, ptr);
        pools := pools[i := pools[i].Released(size)];
        poolAllocations := poolAllocations - {ptr};
        compacted := pools[i].ShouldDefragment();
        if compacted {
          order := DefragmentPool(i);
        }
        return true, compacted, order;
      }
      if ptr !in pageAllocations { return false, false, []; }
      var numPages := pageAllocations[ptr];
      UnmapRange(ptr, numPages);
      pageAllocations := pageAllocations - {ptr};
      return true, false, [];
    }
  }
}
