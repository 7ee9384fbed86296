/**
 One memory pool (memory/MemoryManager.cpp): a bump mark, the live blocks with their sizes, and
 what allocation, release and compaction do to them.
 */
module PoolBlocks {
  import opened MapSums

  datatype Pool = Pool(start: nat, size: nat, used: nat, blocks: map<nat, nat>)

  ghost predicate Separated(s: Pool) {
    && (forall p | p in s.blocks :: s.blocks[p] > 0 && s.start <= p && p + s.blocks[p] <= s.start + s.size)
    && (forall p, q | p in s.blocks && q in s.blocks && p < q :: p + s.blocks[p] <= q)
  }

  ghost predicate BelowMark(s: Pool) {
    s.used <= s.size && forall p | p in s.blocks :: p + s.blocks[p] <= s.start + s.used
  }

  ghost predicate Covered(s: Pool, a: nat) {
    exists p :: p in s.blocks && p <= a < p + s.blocks[p]
  }

  /** The live blocks are disjoint and fill the pool up to the bump mark without gaps. */
  ghost predicate Tiled(s: Pool) {
    && Separated(s) && BelowMark(s)
    && forall a: nat | s.start <= a < s.start + s.used :: Covered(s, a)
  }

  predicate Fits(s: Pool, n: nat) {
    s.used + n <= s.size
  }

  function Bump(s: Pool, n: nat): Pool {
    s.(used := s.used + n, blocks := s.blocks[s.start + s.used := n])
  }

  /** A free lowers the bump mark by the block's size, whatever the block's position. */
  function Free(s: Pool, p: nat): Pool
    requires p in s.blocks && s.blocks[p] <= s.used
  {
    s.(used := s.used - s.blocks[p], blocks := s.blocks - {p})
  }

  predicate IsTop(s: Pool, p: nat)
    requires p in s.blocks
  {
    p + s.blocks[p] == s.start + s.used
  }

  /** No bump allocation that fits, of any size, would overlap a live block. */
  ghost predicate NextBumpSafe(s: Pool) {
    forall n: nat, p | n > 0 && Fits(s, n) && p in s.blocks ::
      p + s.blocks[p] <= s.start + s.used || s.start + s.used + n <= p
  }

  lemma BumpKeepsTiled(s: Pool, n: nat)
    requires Tiled(s) && n > 0 && Fits(s, n)
    ensures s.start + s.used !in s.blocks && Tiled(Bump(s, n))
  {
    var t := Bump(s, n);
    assert forall p | p in s.blocks :: p < s.start + s.used;
    forall a: nat | t.start <= a < t.start + t.used ensures Covered(t, a) {
      if a < s.start + s.used {
        assert Covered(s, a);
        var p :| p in s.blocks && p <= a < p + s.blocks[p];
        assert p in t.blocks;
      } else {
        assert t.start + s.used in t.blocks;
      }
    }
  }

  lemma FreeTopKeepsBelow(s: Pool, p: nat)
    requires Separated(s) && BelowMark(s) && p in s.blocks && IsTop(s, p)
    ensures s.blocks[p] <= s.used && Separated(Free(s, p)) && BelowMark(Free(s, p)) && NextBumpSafe(Free(s, p))
  {
    assert forall q | q in s.blocks && q != p :: q + s.blocks[q] <= p;
  }

  lemma FreeTopKeepsTiled(s: Pool, p: nat)
    requires Tiled(s) && p in s.blocks && IsTop(s, p)
    ensures s.blocks[p] <= s.used && Tiled(Free(s, p)) && NextBumpSafe(Free(s, p))
  {
    FreeTopKeepsBelow(s, p);
    var t := Free(s, p);
    forall a: nat | t.start <= a < t.start + t.used ensures Covered(t, a) {
      assert Covered(s, a);
      var q :| q in s.blocks && q <= a < q + s.blocks[q];
      assert q in t.blocks;
    }
  }

  /** Below the mark of a tiled pool, the last byte belongs to the top block. */
  lemma TopBlock(s: Pool) returns (q: nat)
    requires Tiled(s) && s.used > 0
    ensures q in s.blocks && IsTop(s, q)
  {
    var last := s.start + s.used - 1;
    assert Covered(s, last);
    q :| q in s.blocks && q <= last < q + s.blocks[q];
  }

  lemma FreeBelowTopBreaks(s: Pool, p: nat)
    requires Tiled(s) && p in s.blocks && !IsTop(s, p)
    ensures s.blocks[p] <= s.used && !BelowMark(Free(s, p)) && !NextBumpSafe(Free(s, p))
  {
    var q := TopBlock(s);
    var t := Free(s, p);
    assert q in t.blocks && t.blocks[q] == s.blocks[q];
    assert Fits(t, s.blocks[p]);
  }

  /**
   From a tiled pool, a free leaves the pool tiled, and leaves the next bump allocation safe at
   every size, exactly when the freed block is the one under the bump mark.
   */
  lemma FreeIsSafeExactlyForTop(s: Pool, p: nat)
    requires Tiled(s) && p in s.blocks
    ensures s.blocks[p] <= s.used && Separated(Free(s, p))
    ensures Tiled(Free(s, p)) <==> IsTop(s, p)
    ensures NextBumpSafe(Free(s, p)) <==> IsTop(s, p)
  {
    if IsTop(s, p) { FreeTopKeepsTiled(s, p); } else { FreeBelowTopBreaks(s, p); }
  }

  // ----- when bump allocation is safe

  /** The blocks do not overlap and lie in [lo, hi). */
  ghost predicate Disjoint(blocks: map<nat, nat>, lo: nat, hi: nat) {
    && (forall p | p in blocks :: lo <= p && p + blocks[p] <= hi)
    && (forall p, q | p in blocks && q in blocks && p < q :: p + blocks[p] <= q)
  }

  lemma {:induction false} Highest(blocks: map<nat, nat>) returns (k: nat)
    requires blocks != map[]
    ensures k in blocks && forall p | p in blocks :: p <= k
    decreases |blocks|
  {
    k :| k in blocks;
    if p :| p in blocks && p > k {
      var rest := blocks - {k};
      assert p in rest;
      var h := Highest(rest);
      assert forall q | q in blocks :: q == k || q in rest;
      k := h;
    }
  }

  lemma {:induction false} DisjointSum(blocks: map<nat, nat>, lo: nat, hi: nat)
    requires Disjoint(blocks, lo, hi) && lo <= hi
    ensures Sum(blocks) <= hi - lo
    decreases |blocks|
  {
    if blocks == map[] {
    } else {
      var k := Highest(blocks);
      DisjointSum(blocks - {k}, lo, k);
      SumRemove(blocks, k);
    }
  }

  /** An uncovered byte would be room for one more block. */
  lemma FullIsCovered(s: Pool, a: nat)
    requires Separated(s) && BelowMark(s) && Sum(s.blocks) == s.used
    requires s.start <= a < s.start + s.used
    ensures Covered(s, a)
  {
    if !Covered(s, a) {
      assert forall p | p in s.blocks :: p + s.blocks[p] <= a || a < p;
      DisjointSum(s.blocks[a := 1], s.start, s.start + s.used);
      SumInsert<nat>(s.blocks, a, 1);
      assert false;
    }
  }

  /**
   In any pool of disjoint blocks, bump allocation is safe at every size exactly when no block
   reaches above the mark. If the mark is the sum of the live sizes, that is so exactly when the
   blocks leave no gap below it.
   */
  lemma BumpIsSafeExactly(s: Pool)
    requires Separated(s) && s.used <= s.size
    ensures NextBumpSafe(s) <==> BelowMark(s)
    ensures Sum(s.blocks) == s.used ==> (BelowMark(s) <==> Tiled(s))
  {
    if p :| p in s.blocks && p + s.blocks[p] > s.start + s.used {
      var reach := p + s.blocks[p] - (s.start + s.used);
      assert Fits(s, reach);
    }
    if Sum(s.blocks) == s.used && BelowMark(s) {
      forall a: nat | s.start <= a < s.start + s.used ensures Covered(s, a) { FullIsCovered(s, a); }
    }
  }

  // ----- compaction

  predicate Listed(order: seq<nat>, blocks: map<nat, nat>) {
    forall i | 0 <= i < |order| :: order[i] in blocks
  }

  /** The live blocks in address order, each listed once. */
  ghost predicate IsOrder(order: seq<nat>, blocks: map<nat, nat>) {
    && (forall i, j | 0 <= i < j < |order| :: order[i] < order[j])
    && Listed(order, blocks)
    && (forall p | p in blocks :: p in order)
  }

  lemma OrderTail(o: seq<nat>, blocks: map<nat, nat>)
    requires IsOrder(o, blocks) && o != []
    ensures IsOrder(o[1..], blocks - {o[0]})
  {
  }

  lemma OrderHead(o: seq<nat>, o': seq<nat>, blocks: map<nat, nat>)
    requires IsOrder(o, blocks) && IsOrder(o', blocks) && o != [] && o' != []
    ensures o[0] == o'[0]
  {
  }

  lemma HeadIsLive(o: seq<nat>, blocks: map<nat, nat>)
    requires IsOrder(o, blocks) && o != []
    ensures o[0] in blocks
  {
  }

  lemma OrdersEndTogether(o: seq<nat>, o': seq<nat>, blocks: map<nat, nat>)
    requires IsOrder(o, blocks) && IsOrder(o', blocks) && o == []
    ensures o' == []
  {
    if o' != [] { HeadIsLive(o', blocks); }
  }

  lemma OrderTails(o: seq<nat>, o': seq<nat>, blocks: map<nat, nat>)
    requires IsOrder(o, blocks) && IsOrder(o', blocks) && o != [] && o' != []
    ensures o[0] == o'[0]
    ensures IsOrder(o[1..], blocks - {o[0]}) && IsOrder(o'[1..], blocks - {o[0]})
  {
    OrderHead(o, o', blocks);
    OrderTail(o, blocks);
    OrderTail(o', blocks);
  }

  lemma SameHeadAndTail(o: seq<nat>, o': seq<nat>)
    requires o != [] && o' != [] && o[0] == o'[0] && o[1..] == o'[1..]
    ensures o == o'
  {
  }

  /** Sorting the live blocks has one possible outcome, whatever order they were collected in. */
  lemma {:induction false} OrderIsUnique(o: seq<nat>, o': seq<nat>, blocks: map<nat, nat>)
    requires IsOrder(o, blocks) && IsOrder(o', blocks)
    ensures o == o'
    decreases |o|
  {
    if o == [] {
      OrdersEndTogether(o, o', blocks);
    } else if o' == [] {
      OrdersEndTogether(o', o, blocks);
    } else {
      OrderTails(o, o', blocks);
      OrderIsUnique(o[1..], o'[1..], blocks - {o[0]});
      SameHeadAndTail(o, o');
    }
  }

  /** The summed sizes of the listed blocks. */
  function Total(blocks: map<nat, nat>, order: seq<nat>): nat
    requires Listed(order, blocks)
    decreases |order|
  {
    if order == [] then 0
    else
      var n := |order| - 1;
      assert order[n] in order;
      Total(blocks, order[..n]) + blocks[order[n]]
  }

  /** Where compaction puts block number i: right after the blocks before it. */
  function NewAddress(s: Pool, order: seq<nat>, i: nat): nat
    requires i <= |order| && Listed(order, s.blocks)
  {
    s.start + Total(s.blocks, order[..i])
  }

  lemma NewAddressStep(s: Pool, order: seq<nat>, i: nat)
    requires i < |order| && Listed(order, s.blocks)
    ensures NewAddress(s, order, i + 1) == NewAddress(s, order, i) + s.blocks[order[i]]
  {
    assert order[..i + 1][..i] == order[..i];
  }

  /** Blocks only ever move down, past the end of the blocks packed before them. */
  lemma {:induction false} BlocksMoveDown(s: Pool, order: seq<nat>, i: nat)
    requires Separated(s) && IsOrder(order, s.blocks) && i <= |order|
    ensures s.start <= NewAddress(s, order, i)
    ensures if i < |order| then NewAddress(s, order, i) <= order[i]
            else NewAddress(s, order, i) <= s.start + s.size
  {
    if i > 0 {
      BlocksMoveDown(s, order, i - 1);
      NewAddressStep(s, order, i - 1);
      assert order[i - 1] in s.blocks;
      assert i < |order| ==> order[i] in s.blocks;
    } else {
      assert |order| > 0 ==> order[0] in s.blocks;
    }
  }

  function PackedBlocks(s: Pool, order: seq<nat>, i: nat): map<nat, nat>
    requires i <= |order| && Listed(order, s.blocks)
  {
    if i == 0 then map[]
    else PackedBlocks(s, order, i - 1)[NewAddress(s, order, i - 1) := s.blocks[order[i - 1]]]
  }

  function Packed(s: Pool, order: seq<nat>): Pool
    requires Listed(order, s.blocks)
  {
    s.(used := Total(s.blocks, order), blocks := PackedBlocks(s, order, |order|))
  }

  lemma {:induction false} NewAddressMonotone(s: Pool, order: seq<nat>, i: nat, j: nat)
    requires i < j <= |order| && Listed(order, s.blocks)
    ensures NewAddress(s, order, i) + s.blocks[order[i]] <= NewAddress(s, order, j)
    decreases j
  {
    NewAddressStep(s, order, j - 1);
    if i == j - 1 {
    } else {
      NewAddressMonotone(s, order, i, j - 1);
    }
  }

  lemma {:induction false} PackedBlockAt(s: Pool, order: seq<nat>, i: nat, j: nat)
    requires Separated(s) && IsOrder(order, s.blocks) && j < i <= |order|
    ensures NewAddress(s, order, j) in PackedBlocks(s, order, i)
    ensures PackedBlocks(s, order, i)[NewAddress(s, order, j)] == s.blocks[order[j]]
  {
    if j == i - 1 {
    } else {
      PackedBlockAt(s, order, i - 1, j);
      assert order[j] in s.blocks;
      NewAddressMonotone(s, order, j, i - 1);
    }
  }

  lemma {:induction false} PackedBelow(s: Pool, order: seq<nat>, i: nat)
    requires Separated(s) && IsOrder(order, s.blocks) && i <= |order|
    ensures forall a | a in PackedBlocks(s, order, i) :: a < NewAddress(s, order, i)
  {
    if i == 0 {
    } else {
      PackedBelow(s, order, i - 1);
      NewAddressStep(s, order, i - 1);
      assert order[i - 1] in s.blocks;
    }
  }

  /** Without any assumption on the blocks, what is packed lies below the next new address. */
  lemma {:induction false} PackedInside(s: Pool, order: seq<nat>, i: nat)
    requires i <= |order| && Listed(order, s.blocks)
    ensures forall a | a in PackedBlocks(s, order, i) ::
              s.start <= a && a + PackedBlocks(s, order, i)[a] <= NewAddress(s, order, i)
  {
    if i == 0 {
    } else {
      PackedInside(s, order, i - 1);
      NewAddressStep(s, order, i - 1);
      var before, packed := PackedBlocks(s, order, i - 1), PackedBlocks(s, order, i);
      assert packed == before[NewAddress(s, order, i - 1) := s.blocks[order[i - 1]]];
      forall a | a in packed ensures s.start <= a && a + packed[a] <= NewAddress(s, order, i) {
        if a != NewAddress(s, order, i - 1) { assert a in before && packed[a] == before[a]; }
      }
    }
  }

  lemma {:induction false} PackedSumAtMost(s: Pool, order: seq<nat>, i: nat)
    requires i <= |order| && Listed(order, s.blocks)
    ensures Sum(PackedBlocks(s, order, i)) <= Total(s.blocks, order[..i])
  {
    if i == 0 {
      assert order[..i] == [];
    } else {
      PackedSumAtMost(s, order, i - 1);
      NewAddressStep(s, order, i - 1);
      SumInsert<nat>(PackedBlocks(s, order, i - 1), NewAddress(s, order, i - 1), s.blocks[order[i - 1]]);
    }
  }

  lemma {:induction false} PackedBlockIndex(s: Pool, order: seq<nat>, i: nat, a: nat) returns (j: nat)
    requires i <= |order| && Listed(order, s.blocks) && a in PackedBlocks(s, order, i)
    ensures j < i && a == NewAddress(s, order, j)
  {
    if a == NewAddress(s, order, i - 1) { j := i - 1; } else { j := PackedBlockIndex(s, order, i - 1, a); }
  }

  lemma {:induction false} TotalFrame(b: map<nat, nat>, c: map<nat, nat>, order: seq<nat>)
    requires Listed(order, b) && Listed(order, c)
    requires forall i | 0 <= i < |order| :: b[order[i]] == c[order[i]]
    ensures Total(b, order) == Total(c, order)
    decreases |order|
  {
    if order == [] {
    } else {
      TotalFrame(b, c, order[..|order| - 1]);
    }
  }

  lemma OrderInit(order: seq<nat>, blocks: map<nat, nat>)
    requires IsOrder(order, blocks) && order != []
    ensures var n := |order| - 1; IsOrder(order[..n], blocks - {order[n]})
  {
  }

  /** Adding up the blocks in address order is the sum over all of them. */
  lemma {:induction false} OrderTotal(order: seq<nat>, blocks: map<nat, nat>)
    requires IsOrder(order, blocks)
    ensures Total(blocks, order) == Sum(blocks)
    decreases |order|
  {
    if order == [] {
      assert blocks == map[];
    } else {
      var n := |order| - 1;
      var rest := blocks - {order[n]};
      OrderInit(order, blocks);
      OrderTotal(order[..n], rest);
      TotalFrame(blocks, rest, order[..n]);
      SumRemove(blocks, order[n]);
    }
  }

  /** Some listed block covers each packed byte. */
  lemma {:induction false} PackedCovers(s: Pool, order: seq<nat>, i: nat, a: nat) returns (j: nat)
    requires i <= |order| && Listed(order, s.blocks)
    requires s.start <= a < NewAddress(s, order, i)
    ensures j < i && NewAddress(s, order, j) <= a < NewAddress(s, order, j) + s.blocks[order[j]]
  {
    NewAddressStep(s, order, i - 1);
    if a >= NewAddress(s, order, i - 1) { j := i - 1; } else { j := PackedCovers(s, order, i - 1, a); }
  }

  /** Compaction keeps the number of blocks, their sizes and their address order, and only moves them down. */
  lemma CompactionKeepsBlocks(s: Pool, order: seq<nat>, i: nat)
    requires Separated(s) && IsOrder(order, s.blocks) && i < |order|
    ensures var t, a := Packed(s, order), NewAddress(s, order, i);
            a in t.blocks && t.blocks[a] == s.blocks[order[i]] && s.start <= a <= order[i]
    ensures forall j: nat | i < j < |order| :: NewAddress(s, order, i) < NewAddress(s, order, j)
  {
    PackedBlockAt(s, order, |order|, i);
    BlocksMoveDown(s, order, i);
    assert order[i] in s.blocks;
    forall j: nat | i < j < |order| ensures NewAddress(s, order, i) < NewAddress(s, order, j) {
      NewAddressMonotone(s, order, i, j);
    }
  }

  lemma PackedSeparated(s: Pool, order: seq<nat>)
    requires Separated(s) && IsOrder(order, s.blocks)
    ensures Separated(Packed(s, order)) && BelowMark(Packed(s, order))
  {
    var n := |order|;
    var t := Packed(s, order);
    assert order[..n] == order;
    BlocksMoveDown(s, order, n);
    forall p | p in t.blocks
      ensures t.blocks[p] > 0 && t.start <= p && p + t.blocks[p] <= t.start + t.used
    {
      var i := PackedBlockIndex(s, order, n, p);
      PackedBlockAt(s, order, n, i);
      NewAddressMonotone(s, order, i, n);
      assert order[i] in s.blocks;
    }
    forall p, q | p in t.blocks && q in t.blocks && p < q ensures p + t.blocks[p] <= q {
      var i := PackedBlockIndex(s, order, n, p);
      var j := PackedBlockIndex(s, order, n, q);
      PackedBlockAt(s, order, n, i);
      if i < j { NewAddressMonotone(s, order, i, j); }
      if j < i { NewAddressMonotone(s, order, j, i); }
    }
  }

  /**
   Compaction packs the blocks from the pool start with no gap and sets the mark right behind
   them, so bump allocation is safe again, whatever order the frees before it came in.
   */
  lemma CompactionTiles(s: Pool, order: seq<nat>)
    requires Separated(s) && IsOrder(order, s.blocks)
    ensures Tiled(Packed(s, order)) && NextBumpSafe(Packed(s, order))
  {
    var t := Packed(s, order);
    assert order[..|order|] == order;
    PackedSeparated(s, order);
    forall a: nat | t.start <= a < t.start + t.used ensures Covered(t, a) {
      var j := PackedCovers(s, order, |order|, a);
      PackedBlockAt(s, order, |order|, j);
    }
  }

  // ----- whole runs

  datatype Event = Alloc(n: nat) | FreeBlock(p: nat) | Compact(order: seq<nat>)

  /** The steps a pool takes; allocation happens only while every block lies below the mark. */
  ghost predicate Next(s: Pool, e: Event, t: Pool) {
    match e
    case Alloc(n) => n > 0 && Fits(s, n) && BelowMark(s) && t == Bump(s, n)
    case FreeBlock(p) => p in s.blocks && s.blocks[p] <= s.used && t == Free(s, p)
    case Compact(order) => IsOrder(order, s.blocks) && t == Packed(s, order)
  }

  ghost predicate IsRun(states: seq<Pool>, events: seq<Event>) {
    |states| == |events| + 1 && forall i | 0 <= i < |events| :: Next(states[i], events[i], states[i + 1])
  }

  /** `used` is exactly the sum of the live sizes. */
  ghost predicate Accounted(s: Pool) {
    Sum(s.blocks) == s.used
  }

  lemma {:induction false} PackedSum(s: Pool, order: seq<nat>, i: nat)
    requires Separated(s) && IsOrder(order, s.blocks) && i <= |order|
    ensures Sum(PackedBlocks(s, order, i)) == Total(s.blocks, order[..i])
  {
    if i == 0 {
    } else {
      PackedSum(s, order, i - 1);
      NewAddressStep(s, order, i - 1);
      PackedBelow(s, order, i - 1);
      SumInsert<nat>(PackedBlocks(s, order, i - 1), NewAddress(s, order, i - 1), s.blocks[order[i - 1]]);
    }
  }

  lemma MarkIsFresh(s: Pool)
    requires Separated(s) && BelowMark(s)
    ensures s.start + s.used !in s.blocks
  {
  }

  lemma BumpKeepsAccounted(s: Pool, n: nat)
    requires Separated(s) && BelowMark(s) && Accounted(s)
    ensures Accounted(Bump(s, n))
  {
    MarkIsFresh(s);
    SumInsert<nat>(s.blocks, s.start + s.used, n);
  }

  lemma FreeKeepsAccounted(s: Pool, p: nat)
    requires Accounted(s) && p in s.blocks
    ensures s.blocks[p] <= s.used && Accounted(Free(s, p))
  {
    SumRemove(s.blocks, p);
  }

  lemma PackedIsAccounted(s: Pool, order: seq<nat>)
    requires Separated(s) && IsOrder(order, s.blocks)
    ensures Accounted(Packed(s, order))
  {
    assert order[..|order|] == order;
    PackedSum(s, order, |order|);
  }

  lemma NextKeepsAccounted(s: Pool, e: Event, t: Pool)
    requires Separated(s) && Accounted(s) && Next(s, e, t)
    ensures Accounted(t)
  {
    match e
    case Alloc(n) => BumpKeepsAccounted(s, n);
    case FreeBlock(p) => FreeKeepsAccounted(s, p);
    case Compact(order) => PackedIsAccounted(s, order);
  }

  lemma NextKeepsSeparated(s: Pool, e: Event, t: Pool)
    requires Separated(s) && Next(s, e, t)
    ensures Separated(t)
  {
    if e.Compact? { CompactionTiles(s, e.order); }
  }

  /**
   Over any run from such a pool (an empty one, say) that allocates only while the live blocks lie
   below the mark, with frees in any order and compactions anywhere: live blocks never overlap or
   leave the pool, and `used` is exactly the sum of the live sizes. The guard is exact: at each
   point, bump allocation is safe at every size if and only if it holds, and if and only if the
   blocks leave no gap.
   */
  lemma {:induction false} RunsStaySeparated(states: seq<Pool>, events: seq<Event>, k: nat)
    requires IsRun(states, events) && Separated(states[0]) && Accounted(states[0]) && k < |states|
    ensures Separated(states[k]) && Accounted(states[k])
    ensures NextBumpSafe(states[k]) <==> BelowMark(states[k])
    ensures BelowMark(states[k]) <==> Tiled(states[k])
  {
    if k == 0 {
    } else {
      RunsStaySeparated(states, events, k - 1);
      assert Next(states[k - 1], events[k - 1], states[k]);
      NextKeepsSeparated(states[k - 1], events[k - 1], states[k]);
      NextKeepsAccounted(states[k - 1], events[k - 1], states[k]);
    }
    DisjointSum(states[k].blocks, states[k].start, states[k].start + states[k].size);
    BumpIsSafeExactly(states[k]);
  }

  ghost predicate FreesOnlyTop(s: Pool, e: Event) {
    e.FreeBlock? && e.p in s.blocks ==> IsTop(s, e.p)
  }

  /** If moreover every free is of the top block, the pool stays tiled, so no allocation ever needs the guard. */
  lemma {:induction false} LifoRunsStayTiled(states: seq<Pool>, events: seq<Event>, k: nat)
    requires IsRun(states, events) && Tiled(states[0]) && k < |states|
    requires forall i | 0 <= i < |events| :: FreesOnlyTop(states[i], events[i])
    ensures Tiled(states[k])
  {
    if k == 0 {
    } else {
      LifoRunsStayTiled(states, events, k - 1);
      var s := states[k - 1];
      assert Next(s, events[k - 1], states[k]);
      match events[k - 1] {
        case Alloc(n) => BumpKeepsTiled(s, n);
        case FreeBlock(p) => FreeIsSafeExactlyForTop(s, p);
        case Compact(order) => CompactionTiles(s, order);
      }
    }
  }
}
