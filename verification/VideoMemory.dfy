/**
 The dedicated video memory (memory/GraphicsResourceManager.hpp): first-fit reservation with
 splitting over a block list, and the defragmentation it falls back on: sort, coalesce, and the
 compaction of the block descriptors. Only the list is modelled, not the bytes behind it.
 */
module VideoMemory {
  import opened Prelude

  datatype Block = Block(address: nat, size: nat, isFree: bool)

  /** sizeof(MemoryBlock): a pointer, a size_t and a bool, padded. */
  const HEADER: nat := 24

  // ----- first fit and splitting

  predicate Suits(b: Block, n: nat) {
    b.isFree && b.size >= n
  }

  function FindFit(bs: seq<Block>, n: nat, from: nat): (r: Option<nat>)
    ensures r.Some? ==> from <= r.value < |bs| && Suits(bs[r.value], n)
    ensures r.Some? ==> forall i | from <= i < r.value :: !Suits(bs[i], n)
    ensures r.None? ==> forall i | from <= i < |bs| :: !Suits(bs[i], n)
    decreases |bs| - from
  {
    if from >= |bs| then None else if Suits(bs[from], n) then Some(from) else FindFit(bs, n, from + 1)
  }

  /** What replaces block b when n bytes of it are handed out: a big enough remainder stays free. */
  function Split(b: Block, n: nat): seq<Block>
    requires Suits(b, n)
  {
    if b.size > (n + HEADER) % U64
    then [Block(b.address, n, false), Block(b.address + n, b.size - n, true)]
    else [b.(isFree := false)]
  }

  function Take(bs: seq<Block>, i: nat, n: nat): seq<Block>
    requires i < |bs| && Suits(bs[i], n)
  {
    bs[..i] + Split(bs[i], n) + bs[i + 1..]
  }

  // ----- defragmentation

  function Insert(bs: seq<Block>, b: Block): (r: seq<Block>)
    ensures multiset(r) == multiset(bs) + multiset{b}
  {
    if bs == [] then [b]
    else if b.address < bs[0].address then [b] + bs
    else
      assert bs == [bs[0]] + bs[1..];
      [bs[0]] + Insert(bs[1..], b)
  }

  /** std::sort by address, one insertion at a time. */
  function SortByAddress(bs: seq<Block>): (r: seq<Block>)
    ensures multiset(r) == multiset(bs)
  {
    if bs == [] then []
    else
      var n := |bs| - 1;
      assert bs == bs[..n] + [bs[n]];
      Insert(SortByAddress(bs[..n]), bs[n])
  }

  function Merge(a: Block, b: Block): Block {
    a.(size := a.size + b.size)
  }

  /** Merging neighbouring free blocks, staying at the same place after a merge. */
  function Coalesce(bs: seq<Block>): seq<Block>
    decreases |bs|
  {
    if |bs| < 2 then bs
    else if bs[0].isFree && bs[1].isFree then Coalesce([Merge(bs[0], bs[1])] + bs[2..])
    else [bs[0]] + Coalesce(bs[1..])
  }

  function UsedBlocks(bs: seq<Block>): (r: seq<Block>)
    ensures |r| <= |bs|
  {
    if bs == [] then []
    else
      var n := |bs| - 1;
      UsedBlocks(bs[..n]) + if bs[n].isFree then [] else [bs[n]]
  }

  /** The descriptors of used blocks are copied to the front; the others stay where they were. */
  function PackUsed(bs: seq<Block>): seq<Block> {
    UsedBlocks(bs) + bs[|UsedBlocks(bs)|..]
  }

  function Defragment(bs: seq<Block>): seq<Block> {
    PackUsed(Coalesce(SortByAddress(bs)))
  }

  /** A reservation that gives up after so many defragmentations; the code never gives up. */
  function Reserve(bs: seq<Block>, n: nat, retries: nat): (seq<Block>, bool)
    decreases retries
  {
    match FindFit(bs, n, 0)
    case Some(i) => (Take(bs, i, n), true)
    case None => if retries == 0 then (bs, false) else Reserve(Defragment(bs), n, retries - 1)
  }

  // ----- tiling

  /** Non-empty blocks, each starting where the one before it ends, from lo to hi. */
  predicate Tiles(bs: seq<Block>, lo: nat, hi: nat) {
    if bs == [] then lo == hi
    else bs[0].address == lo && bs[0].size > 0 && Tiles(bs[1..], lo + bs[0].size, hi)
  }

  lemma {:induction false} TilesAppend(a: seq<Block>, b: seq<Block>, lo: nat, mid: nat, hi: nat)
    requires Tiles(a, lo, mid) && Tiles(b, mid, hi)
    ensures Tiles(a + b, lo, hi)
  {
    if a == [] {
      assert a + b == b;
    } else {
      TilesAppend(a[1..], b, lo + a[0].size, mid, hi);
      assert (a + b)[1..] == a[1..] + b;
    }
  }

  lemma {:induction false} TilesEnd(bs: seq<Block>, lo: nat, hi: nat)
    requires Tiles(bs, lo, hi)
    ensures lo <= hi
  {
    if bs == [] {
    } else {
      TilesEnd(bs[1..], lo + bs[0].size, hi);
    }
  }

  lemma {:induction false} TilesSplit(bs: seq<Block>, lo: nat, hi: nat, i: nat)
    requires Tiles(bs, lo, hi) && i < |bs|
    ensures lo <= bs[i].address && bs[i].size > 0 && bs[i].address + bs[i].size <= hi
    ensures Tiles(bs[..i], lo, bs[i].address) && Tiles(bs[i + 1..], bs[i].address + bs[i].size, hi)
  {
    if i > 0 {
      TilesSplit(bs[1..], lo + bs[0].size, hi, i - 1);
      assert bs[1..][..i - 1] == bs[..i][1..] && bs[1..][i..] == bs[i + 1..];
    } else {
      TilesEnd(bs[1..], lo + bs[0].size, hi);
    }
  }

  lemma TilesOrder(bs: seq<Block>, lo: nat, hi: nat, i: nat, j: nat)
    requires Tiles(bs, lo, hi) && i < j < |bs|
    ensures bs[i].size > 0 && bs[i].address + bs[i].size <= bs[j].address
    ensures j == i + 1 ==> bs[j].address == bs[i].address + bs[i].size
  {
    TilesSplit(bs, lo, hi, i);
    TilesSplit(bs[i + 1..], bs[i].address + bs[i].size, hi, j - i - 1);
  }

  /** Block b is handed out whole, or both parts of the split are not empty. */
  predicate CleanSplit(b: Block, n: nat) {
    b.size <= (n + HEADER) % U64 || 0 < n < b.size
  }

  lemma SplitTiles(b: Block, n: nat)
    requires Suits(b, n) && b.size > 0 && CleanSplit(b, n)
    ensures Tiles(Split(b, n), b.address, b.address + b.size)
  {
  }

  lemma CleanTakeKeepsTiles(bs: seq<Block>, lo: nat, hi: nat, i: nat, n: nat)
    requires Tiles(bs, lo, hi) && i < |bs| && Suits(bs[i], n) && CleanSplit(bs[i], n)
    ensures Tiles(Take(bs, i, n), lo, hi)
  {
    var b := bs[i];
    TilesSplit(bs, lo, hi, i);
    SplitTiles(b, n);
    TilesAppend(bs[..i], Split(b, n), lo, b.address, b.address + b.size);
    TilesAppend(bs[..i] + Split(b, n), bs[i + 1..], lo, b.address + b.size, hi);
  }

  /**
   A reservation keeps the pool tiled exactly when it does not cut an empty block off. It does
   that for 0 bytes of a block larger than a header, and for a block that is used up completely by
   a request within a header of 2^64, where the sum in the test wraps.
   */
  lemma TakeKeepsTiles(bs: seq<Block>, lo: nat, hi: nat, i: nat, n: nat)
    requires Tiles(bs, lo, hi) && i < |bs| && Suits(bs[i], n)
    ensures Tiles(Take(bs, i, n), lo, hi) <==> CleanSplit(bs[i], n)
  {
    if CleanSplit(bs[i], n) {
      CleanTakeKeepsTiles(bs, lo, hi, i, n);
    } else if Tiles(Take(bs, i, n), lo, hi) {
      TilesSplit(Take(bs, i, n), lo, hi, i);
      TilesSplit(Take(bs, i, n), lo, hi, i + 1);
    }
  }

  // ----- sorting a tiled list

  lemma {:induction false} InsertLast(bs: seq<Block>, b: Block)
    requires forall i | 0 <= i < |bs| :: bs[i].address <= b.address
    ensures Insert(bs, b) == bs + [b]
  {
    if bs == [] {
    } else {
      InsertLast(bs[1..], b);
      assert bs + [b] == [bs[0]] + (bs[1..] + [b]);
    }
  }

  predicate Sorted(bs: seq<Block>) {
    forall i, j | 0 <= i < j < |bs| :: bs[i].address <= bs[j].address
  }

  lemma {:induction false} SortOfSorted(bs: seq<Block>)
    requires Sorted(bs)
    ensures SortByAddress(bs) == bs
  {
    if bs == [] {
    } else {
      var n := |bs| - 1;
      SortOfSorted(bs[..n]);
      InsertLast(bs[..n], bs[n]);
    }
  }

  lemma InsertSorted(bs: seq<Block>, b: Block)
    requires Sorted(bs)
    ensures Sorted(Insert(bs, b))
  {
    if bs != [] && b.address >= bs[0].address {
      InsertSorted(bs[1..], b);
      var r := Insert(bs[1..], b);
      forall x | x in r ensures bs[0].address <= x.address {
        assert x in multiset(r) && x in multiset(bs[1..]) + multiset{b};
        assert x in bs[1..] || x == b;
      }
      assert forall i | 0 <= i < |r| :: r[i] in r;
    }
  }

  lemma {:induction false} SortIsSorted(bs: seq<Block>)
    ensures Sorted(SortByAddress(bs))
  {
    if bs == [] {
    } else {
      SortIsSorted(bs[..|bs| - 1]);
      InsertSorted(SortByAddress(bs[..|bs| - 1]), bs[|bs| - 1]);
    }
  }

  lemma TilesAreSorted(bs: seq<Block>, lo: nat, hi: nat)
    requires Tiles(bs, lo, hi)
    ensures SortByAddress(bs) == bs
  {
    forall i, j | 0 <= i < j < |bs| ensures bs[i].address <= bs[j].address { TilesOrder(bs, lo, hi, i, j); }
    SortOfSorted(bs);
  }

  lemma TailMultiset(a: seq<Block>, b: seq<Block>)
    requires a != [] && b != [] && a[0] == b[0] && multiset(a) == multiset(b)
    ensures multiset(a[1..]) == multiset(b[1..])
  {
    assert a == [a[0]] + a[1..] && b == [b[0]] + b[1..];
    assert multiset(a[1..]) == multiset(a) - multiset{a[0]};
    assert multiset(b[1..]) == multiset(b) - multiset{b[0]};
  }

  lemma SameLeast(a: seq<Block>, b: seq<Block>)
    requires Sorted(a) && Sorted(b) && multiset(a) == multiset(b) && a != []
    requires forall i, j | 0 <= i < j < |a| :: a[i].address != a[j].address
    ensures b != [] && a[0] == b[0]
  {
    assert a[0] in multiset(b);
    assert b[0] in multiset(a);
    var i :| 0 <= i < |a| && a[i] == b[0];
    var j :| 0 <= j < |b| && b[j] == a[0];
  }

  lemma {:induction false} SortedIsUnique(a: seq<Block>, b: seq<Block>)
    requires Sorted(a) && Sorted(b) && multiset(a) == multiset(b)
    requires forall i, j | 0 <= i < j < |a| :: a[i].address != a[j].address
    ensures a == b
    decreases |a|
  {
    if a == [] {
      assert |multiset(b)| == 0;
    } else {
      SameLeast(a, b);
      TailMultiset(a, b);
      SortedIsUnique(a[1..], b[1..]);
      assert a == [a[0]] + a[1..] && b == [b[0]] + b[1..];
    }
  }

  /** For a tiled pool it does not matter in which order the list has its blocks. */
  lemma DefragmentIgnoresOrder(bs: seq<Block>, shuffled: seq<Block>, lo: nat, hi: nat)
    requires Tiles(bs, lo, hi) && multiset(shuffled) == multiset(bs)
    ensures Defragment(shuffled) == Defragment(bs)
  {
    SortIsSorted(bs);
    SortIsSorted(shuffled);
    TilesAreSorted(bs, lo, hi);
    forall i, j | 0 <= i < j < |bs| ensures bs[i].address != bs[j].address { TilesOrder(bs, lo, hi, i, j); }
    SortedIsUnique(bs, SortByAddress(shuffled));
  }

  // ----- coalescing

  predicate NoAdjacentFree(bs: seq<Block>) {
    forall i | 0 <= i < |bs| - 1 :: !(bs[i].isFree && bs[i + 1].isFree)
  }

  lemma {:induction false} CoalesceKeepsTiles(bs: seq<Block>, lo: nat, hi: nat)
    requires Tiles(bs, lo, hi)
    ensures Tiles(Coalesce(bs), lo, hi)
    decreases |bs|
  {
    if |bs| < 2 {
    } else {
      if bs[0].isFree && bs[1].isFree {
        var m := [Merge(bs[0], bs[1])] + bs[2..];
        assert m[1..] == bs[2..] == bs[1..][1..];
        CoalesceKeepsTiles(m, lo, hi);
      } else {
        CoalesceKeepsTiles(bs[1..], lo + bs[0].size, hi);
        assert ([bs[0]] + Coalesce(bs[1..]))[1..] == Coalesce(bs[1..]);
      }
    }
  }

  lemma {:induction false} CoalesceSeparates(bs: seq<Block>)
    ensures NoAdjacentFree(Coalesce(bs))
    ensures (Coalesce(bs) == [] <==> bs == []) && (bs != [] ==> Coalesce(bs)[0].isFree == bs[0].isFree)
    decreases |bs|
  {
    if |bs| < 2 {
    } else {
      if bs[0].isFree && bs[1].isFree {
        CoalesceSeparates([Merge(bs[0], bs[1])] + bs[2..]);
      } else {
        CoalesceSeparates(bs[1..]);
      }
    }
  }

  lemma {:induction false} CoalesceOfSeparated(bs: seq<Block>)
    requires NoAdjacentFree(bs)
    ensures Coalesce(bs) == bs
  {
    if |bs| < 2 {
    } else {
      CoalesceOfSeparated(bs[1..]);
    }
  }

  lemma UsedBlocksSnoc(bs: seq<Block>, b: Block)
    ensures UsedBlocks(bs + [b]) == UsedBlocks(bs) + if b.isFree then [] else [b]
  {
    assert (bs + [b])[..|bs|] == bs;
  }

  lemma {:induction false} UsedBlocksAppend(a: seq<Block>, b: seq<Block>)
    ensures UsedBlocks(a + b) == UsedBlocks(a) + UsedBlocks(b)
    decreases |b|
  {
    if b == [] {
      assert a + b == a;
    } else {
      var n := |b| - 1;
      UsedBlocksAppend(a, b[..n]);
      UsedBlocksSnoc(a + b[..n], b[n]);
      assert a + b == a + b[..n] + [b[n]];
    }
  }

  lemma UsedBlocksParts(bs: seq<Block>, a: seq<Block>, b: seq<Block>)
    requires bs == a + b
    ensures UsedBlocks(bs) == UsedBlocks(a) + UsedBlocks(b)
  {
    UsedBlocksAppend(a, b);
  }

  lemma UsedBlocksSplit(bs: seq<Block>, i: nat)
    requires i <= |bs|
    ensures UsedBlocks(bs) == UsedBlocks(bs[..i]) + UsedBlocks(bs[i..])
  {
    assert bs == bs[..i] + bs[i..];
    UsedBlocksParts(bs, bs[..i], bs[i..]);
  }

  /** Coalescing keeps every used block. */
  lemma {:induction false} CoalesceKeepsUsed(bs: seq<Block>)
    ensures UsedBlocks(Coalesce(bs)) == UsedBlocks(bs)
    decreases |bs|
  {
    if |bs| < 2 {
    } else {
      if bs[0].isFree && bs[1].isFree {
        var m := [Merge(bs[0], bs[1])] + bs[2..];
        CoalesceKeepsUsed(m);
        UsedBlocksSplit(m, 1);
        UsedBlocksSplit(bs, 2);
        assert m[..1] == [Merge(bs[0], bs[1])] && m[1..] == bs[2..];
        assert bs[..2] == [bs[0], bs[1]] && [bs[0], bs[1]][..1] == [bs[0]];
      } else {
        CoalesceKeepsUsed(bs[1..]);
        UsedBlocksAppend([bs[0]], Coalesce(bs[1..]));
        UsedBlocksSplit(bs, 1);
        assert bs[..1] == [bs[0]];
      }
    }
  }

  predicate Covers(b: Block, a: nat) {
    b.isFree && b.address <= a < b.address + b.size
  }

  /** Byte a lies in a free block. */
  predicate FreeByte(bs: seq<Block>, a: nat) {
    exists i | 0 <= i < |bs| :: Covers(bs[i], a)
  }

  ghost predicate FreeRange(bs: seq<Block>, a: nat, n: nat) {
    forall x: nat | a <= x < a + n :: FreeByte(bs, x)
  }

  lemma FreeByteSplit(bs: seq<Block>, i: nat, a: nat)
    requires i <= |bs|
    ensures FreeByte(bs, a) <==> FreeByte(bs[..i], a) || FreeByte(bs[i..], a)
  {
  }

  /** Coalescing a tiled list keeps the set of free bytes. */
  lemma {:induction false} CoalesceKeepsFreeBytes(bs: seq<Block>, lo: nat, hi: nat, a: nat)
    requires Tiles(bs, lo, hi)
    ensures FreeByte(Coalesce(bs), a) <==> FreeByte(bs, a)
    decreases |bs|
  {
    if |bs| < 2 {
    } else {
      if bs[0].isFree && bs[1].isFree {
        var m := [Merge(bs[0], bs[1])] + bs[2..];
        assert m[1..] == bs[2..] == bs[1..][1..];
        CoalesceKeepsFreeBytes(m, lo, hi, a);
        FreeByteSplit(m, 1, a);
        FreeByteSplit(bs, 2, a);
        assert Covers(m[0], a) <==> Covers(bs[0], a) || Covers(bs[1], a);
        assert Covers(m[..1][0], a) <==> Covers(bs[..2][0], a) || Covers(bs[..2][1], a);
      } else {
        CoalesceKeepsFreeBytes(bs[1..], lo + bs[0].size, hi, a);
        FreeByteSplit(bs, 1, a);
        FreeByteSplit([bs[0]] + Coalesce(bs[1..]), 1, a);
        assert bs[..1] == [bs[0]] == ([bs[0]] + Coalesce(bs[1..]))[..1];
        assert ([bs[0]] + Coalesce(bs[1..]))[1..] == Coalesce(bs[1..]);
      }
    }
  }

  lemma RangeInOneBlock(bs: seq<Block>, lo: nat, hi: nat, a: nat, n: nat) returns (i: nat)
    requires Tiles(bs, lo, hi) && NoAdjacentFree(bs) && n > 0 && FreeRange(bs, a, n)
    ensures i < |bs| && Suits(bs[i], n)
  {
    assert FreeByte(bs, a);
    i :| i < |bs| && Covers(bs[i], a);
    var end := bs[i].address + bs[i].size;
    if end < a + n {
      assert FreeByte(bs, end);
      var j: nat :| j < |bs| && Covers(bs[j], end);
      if j < i { TilesOrder(bs, lo, hi, j, i); }
      if i < j {
        TilesOrder(bs, lo, hi, i, j);
        if i + 1 < j { TilesOrder(bs, lo, hi, i, i + 1); TilesOrder(bs, lo, hi, i + 1, j); }
      }
    }
  }

  /**
   After coalescing, some block holds a request exactly when the pool had enough free bytes in a
   row, however they were cut up.
   */
  lemma CoalescedFitsExactly(bs: seq<Block>, lo: nat, hi: nat, n: nat)
    requires Tiles(bs, lo, hi) && n > 0
    ensures FindFit(Coalesce(bs), n, 0).Some? <==> exists a: nat :: FreeRange(bs, a, n)
  {
    var c := Coalesce(bs);
    CoalesceKeepsTiles(bs, lo, hi);
    CoalesceSeparates(bs);
    forall x: nat ensures FreeByte(c, x) <==> FreeByte(bs, x) { CoalesceKeepsFreeBytes(bs, lo, hi, x); }
    if FindFit(c, n, 0).Some? {
      var b := c[FindFit(c, n, 0).value];
      forall x: nat | b.address <= x < b.address + n ensures FreeByte(c, x) { assert Covers(b, x); }
      assert FreeRange(bs, b.address, n);
    }
    if a: nat :| FreeRange(bs, a, n) {
      assert FreeRange(c, a, n);
      var i := RangeInOneBlock(c, lo, hi, a, n);
    }
  }

  // ----- what compacting the descriptors does

  /** No free block comes before a used one. */
  predicate UsedFirst(bs: seq<Block>) {
    forall i, j | 0 <= i < j < |bs| :: bs[i].isFree ==> bs[j].isFree
  }

  lemma {:induction false} UsedBlocksAreUsed(bs: seq<Block>)
    ensures forall i | 0 <= i < |UsedBlocks(bs)| :: !UsedBlocks(bs)[i].isFree && UsedBlocks(bs)[i] in bs
    ensures forall u | u in bs && !u.isFree :: u in UsedBlocks(bs)
  {
    if bs == [] {
    } else {
      var n := |bs| - 1;
      UsedBlocksAreUsed(bs[..n]);
      assert bs == bs[..n] + [bs[n]];
    }
  }

  lemma {:induction false} AllUsed(bs: seq<Block>)
    requires forall i | 0 <= i < |bs| :: !bs[i].isFree
    ensures UsedBlocks(bs) == bs
  {
    if bs == [] {
    } else {
      AllUsed(bs[..|bs| - 1]);
      assert bs == bs[..|bs| - 1] + [bs[|bs| - 1]];
    }
  }

  lemma {:induction false} NoneUsed(bs: seq<Block>)
    requires forall i | 0 <= i < |bs| :: bs[i].isFree
    ensures UsedBlocks(bs) == []
  {
    if bs == [] {
    } else {
      NoneUsed(bs[..|bs| - 1]);
    }
  }

  lemma {:induction false} FirstFree(bs: seq<Block>) returns (i: nat)
    ensures i <= |bs| && (forall j | 0 <= j < i :: !bs[j].isFree) && (i < |bs| ==> bs[i].isFree)
  {
    if bs == [] || bs[0].isFree { i := 0; } else { i := FirstFree(bs[1..]); i := i + 1; }
  }

  lemma PackOfUsedFirst(bs: seq<Block>)
    requires UsedFirst(bs)
    ensures PackUsed(bs) == bs
  {
    var i := FirstFree(bs);
    UsedBlocksSplit(bs, i);
    AllUsed(bs[..i]);
    NoneUsed(bs[i..]);
    assert bs[..i] + bs[i..] == bs;
  }

  lemma {:induction false} TilesLength(bs: seq<Block>, lo: nat, hi: nat, hi': nat)
    requires Tiles(bs, lo, hi) && Tiles(bs, lo, hi')
    ensures hi == hi'
  {
    if bs == [] {
    } else {
      TilesLength(bs[1..], lo + bs[0].size, hi, hi');
    }
  }

  lemma SamePrefixSameAddress(a: seq<Block>, b: seq<Block>, lo: nat, hi: nat, i: nat)
    requires Tiles(a, lo, hi) && Tiles(b, lo, hi) && i < |a| && i < |b| && a[..i] == b[..i]
    ensures a[i].address == b[i].address
  {
    TilesSplit(a, lo, hi, i);
    TilesSplit(b, lo, hi, i);
    TilesLength(a[..i], lo, a[i].address, b[i].address);
  }

  lemma SomeUsedLater(bs: seq<Block>, i: nat) returns (j: nat)
    requires i <= |bs| && exists q :: i <= q < |bs| && !bs[q].isFree
    ensures i <= j < |bs| && UsedBlocks(bs[i..]) != [] && UsedBlocks(bs[i..])[0] == bs[j] && !bs[j].isFree
  {
    var tail := bs[i..];
    UsedBlocksAreUsed(tail);
    var q :| i <= q < |bs| && !bs[q].isFree;
    assert tail[q - i] == bs[q] && bs[q] in tail;
    var k :| 0 <= k < |tail| && tail[k] == UsedBlocks(tail)[0];
    j := i + k;
  }

  lemma PackAfterUsed(bs: seq<Block>, i: nat)
    requires i <= |bs| && UsedBlocks(bs[i..]) != [] && forall j | 0 <= j < i :: !bs[j].isFree
    ensures i < |PackUsed(bs)| && PackUsed(bs)[..i] == bs[..i] && PackUsed(bs)[i] == UsedBlocks(bs[i..])[0]
  {
    UsedBlocksSplit(bs, i);
    AllUsed(bs[..i]);
  }

  /** The first place at which packing changes the list gets a used block from further back. */
  lemma PackPullsForward(bs: seq<Block>) returns (i: nat, j: nat)
    requires !UsedFirst(bs)
    ensures i < j < |bs| && PackUsed(bs)[..i] == bs[..i] && i < |PackUsed(bs)| && PackUsed(bs)[i] == bs[j]
  {
    i := FirstFree(bs);
    var p, q :| 0 <= p < q < |bs| && bs[p].isFree && !bs[q].isFree;
    j := SomeUsedLater(bs, i);
    PackAfterUsed(bs, i);
  }

  /** With a free block before a used one, the block list after the compaction does not tile the pool. */
  lemma PackBreaksTiling(bs: seq<Block>, lo: nat, hi: nat)
    requires Tiles(bs, lo, hi) && !UsedFirst(bs)
    ensures !Tiles(PackUsed(bs), lo, hi)
  {
    var i, j := PackPullsForward(bs);
    TilesOrder(bs, lo, hi, i, j);
    if Tiles(PackUsed(bs), lo, hi) {
      SamePrefixSameAddress(PackUsed(bs), bs, lo, hi, i);
    }
  }

  /** The whole defragmentation keeps the pool tiled exactly when there is no descriptor to move. */
  lemma DefragmentKeepsTilingExactly(bs: seq<Block>, lo: nat, hi: nat)
    requires Tiles(bs, lo, hi)
    ensures Tiles(Defragment(bs), lo, hi) <==> UsedFirst(Coalesce(bs))
    ensures UsedFirst(Coalesce(bs)) ==> Defragment(bs) == Coalesce(bs)
  {
    TilesAreSorted(bs, lo, hi);
    CoalesceKeepsTiles(bs, lo, hi);
    if UsedFirst(Coalesce(bs)) {
      PackOfUsedFirst(Coalesce(bs));
    } else {
      PackBreaksTiling(Coalesce(bs), lo, hi);
    }
  }

  // ----- what a reservation hands out

  lemma {:induction false} FirstFitFound(bs: seq<Block>, n: nat, from: nat, i: nat)
    requires from <= i < |bs| && bs[i].isFree && bs[i].size >= n
    requires forall j | 0 <= j < i :: bs[j].isFree ==> bs[j].size < n
    ensures FindFit(bs, n, from) == Some(i)
    decreases i - from
  {
    if from == i {
    } else {
      FirstFitFound(bs, n, from + 1, i);
    }
  }

  /**
   A reservation gets the front of the first free block that is large enough. Of the rest a free
   block is made exactly if it is larger than the 24 bytes of a header; otherwise the block goes out
   whole. All other blocks stay as they were.
   */
  lemma ReserveTakesFirstFit(bs: seq<Block>, n: nat, retries: nat, i: nat)
    requires i < |bs| && bs[i].isFree && bs[i].size >= n && n + 24 < U64
    requires forall j | 0 <= j < i :: bs[j].isFree ==> bs[j].size < n
    ensures var (r, ok) := Reserve(bs, n, retries);
            && ok && i < |r| && r[..i] == bs[..i]
            && if bs[i].size - n > 24 then
                 && r[i] == Block(bs[i].address, n, false)
                 && r[i + 1..] == [Block(bs[i].address + n, bs[i].size - n, true)] + bs[i + 1..]
               else
                 && r[i] == Block(bs[i].address, bs[i].size, false)
                 && r[i + 1..] == bs[i + 1..]
  {
    FirstFitFound(bs, n, 0, i);
    assert (n + HEADER) % U64 == n + 24;
  }

  // ----- when the retry returns

  ghost predicate UsedBetween(bs: seq<Block>, f: Block, g: Block) {
    exists u :: u in bs && !u.isFree && f.address < u.address < g.address
  }

  ghost predicate PairsFenced(bs: seq<Block>) {
    forall f, g | f in bs && g in bs && f.isFree && g.isFree ::
      (f.address == g.address ==> f == g) && (f.address < g.address ==> UsedBetween(bs, f, g))
  }

  /** Free blocks are all different, and any two of them have a used block between their addresses. */
  ghost predicate Fenced(bs: seq<Block>) {
    && (forall f | f in bs && f.isFree :: multiset(bs)[f] == 1)
    && PairsFenced(bs)
  }

  ghost predicate Stuck(bs: seq<Block>, n: nat) {
    Fenced(bs) && forall b | b in bs :: !Suits(b, n)
  }

  lemma TwiceInMultiset(bs: seq<Block>, i: nat, j: nat)
    requires i < j < |bs| && bs[i] == bs[j]
    ensures multiset(bs)[bs[i]] >= 2
  {
    assert bs == bs[..j] + [bs[j]] + bs[j + 1..];
    assert bs[i] in bs[..j];
  }

  lemma {:induction false} OnceInMultiset(bs: seq<Block>, i: nat)
    requires i < |bs| && forall j | 0 <= j < |bs| && j != i :: bs[j] != bs[i]
    ensures multiset(bs)[bs[i]] == 1
  {
    assert bs == bs[..i] + [bs[i]] + bs[i + 1..];
    assert bs[i] !in bs[..i] && bs[i] !in bs[i + 1..];
  }

  lemma FencedIsSeparated(bs: seq<Block>)
    requires Fenced(bs) && Sorted(bs)
    ensures NoAdjacentFree(bs)
  {
    forall i | 0 <= i < |bs| - 1 && bs[i].isFree && bs[i + 1].isFree ensures false {
      var f, g := bs[i], bs[i + 1];
      assert f in bs && g in bs;
      if f == g { TwiceInMultiset(bs, i, i + 1); }
      assert UsedBetween(bs, f, g);
      var u :| u in bs && !u.isFree && f.address < u.address < g.address;
      var j :| 0 <= j < |bs| && bs[j] == u;
    }
  }

  lemma FencedIsAboutMembers(a: seq<Block>, b: seq<Block>)
    requires Fenced(a) && multiset(a) == multiset(b)
    ensures Fenced(b)
  {
    assert forall x :: x in b <==> x in multiset(b);
    assert forall x :: x in a <==> x in multiset(a);
    forall f, g | f in b && g in b && f.isFree && g.isFree && f.address < g.address ensures UsedBetween(b, f, g) {
      assert f in a && g in a && UsedBetween(a, f, g);
      var u :| u in a && !u.isFree && f.address < u.address < g.address;
      assert u in b;
    }
  }

  lemma PackMembers(bs: seq<Block>)
    ensures forall b | b in PackUsed(bs) :: b in bs
    ensures forall u | u in bs && !u.isFree :: u in PackUsed(bs)
    ensures forall f: Block | f.isFree :: multiset(PackUsed(bs))[f] <= multiset(bs)[f]
  {
    var used, k := UsedBlocks(bs), |UsedBlocks(bs)|;
    UsedBlocksAreUsed(bs);
    assert bs == bs[..k] + bs[k..];
    assert multiset(bs) == multiset(bs[..k]) + multiset(bs[k..]);
    forall f: Block | f.isFree ensures multiset(PackUsed(bs))[f] <= multiset(bs)[f] {
      assert f !in used;
    }
  }

  lemma PackKeepsSingle(bs: seq<Block>, f: Block)
    requires multiset(bs)[f] == 1 && f.isFree && f in PackUsed(bs)
    ensures multiset(PackUsed(bs))[f] == 1
  {
    PackMembers(bs);
    assert f in multiset(PackUsed(bs));
  }

  lemma FencesAmongFewer(bs: seq<Block>, p: seq<Block>)
    requires PairsFenced(bs)
    requires (forall b | b in p :: b in bs) && (forall u | u in bs && !u.isFree :: u in p)
    ensures PairsFenced(p)
  {
    forall f, g | f in p && g in p && f.isFree && g.isFree && f.address < g.address ensures UsedBetween(p, f, g) {
      assert UsedBetween(bs, f, g);
    }
  }

  lemma PackKeepsFences(bs: seq<Block>)
    requires PairsFenced(bs)
    ensures PairsFenced(PackUsed(bs))
  {
    PackMembers(bs);
    FencesAmongFewer(bs, PackUsed(bs));
  }

  lemma PackKeepsFenced(bs: seq<Block>)
    requires Fenced(bs)
    ensures Fenced(PackUsed(bs))
  {
    forall f | f in PackUsed(bs) && f.isFree ensures multiset(PackUsed(bs))[f] == 1 {
      PackMembers(bs);
      PackKeepsSingle(bs, f);
    }
    PackKeepsFences(bs);
  }

  lemma StuckStaysStuck(bs: seq<Block>, n: nat)
    requires Stuck(bs, n)
    ensures Stuck(Defragment(bs), n)
  {
    var s := SortByAddress(bs);
    FencedIsAboutMembers(bs, s);
    SortIsSorted(bs);
    FencedIsSeparated(s);
    CoalesceOfSeparated(s);
    PackKeepsFenced(s);
    PackMembers(s);
    forall b | b in Defragment(bs) ensures !Suits(b, n) {
      assert b in s && b in multiset(s) && b in multiset(bs);
    }
  }

  lemma {:induction false} StuckNeverReturns(bs: seq<Block>, n: nat, retries: nat)
    requires Stuck(bs, n)
    ensures !Reserve(bs, n, retries).1
    decreases retries
  {
    assert forall i | 0 <= i < |bs| :: bs[i] in bs;
    if retries == 0 {
    } else {
      StuckStaysStuck(bs, n);
      StuckNeverReturns(Defragment(bs), n, retries - 1);
    }
  }

  lemma FreePairIsFenced(c: seq<Block>, lo: nat, hi: nat, i: nat, j: nat)
    requires Tiles(c, lo, hi) && NoAdjacentFree(c) && i < |c| && j < |c| && c[i].isFree && c[j].isFree
    ensures c[i].address == c[j].address ==> i == j
    ensures c[i].address < c[j].address ==> UsedBetween(c, c[i], c[j])
  {
    if i < j {
      TilesOrder(c, lo, hi, i, j);
      TilesOrder(c, lo, hi, i, i + 1);
      assert i + 1 < j && !c[i + 1].isFree;
      TilesOrder(c, lo, hi, i + 1, j);
      assert c[i + 1] in c;
    }
    if j < i { TilesOrder(c, lo, hi, j, i); }
  }

  lemma CoalescedIsFenced(c: seq<Block>, lo: nat, hi: nat)
    requires Tiles(c, lo, hi) && NoAdjacentFree(c)
    ensures Fenced(c)
  {
    forall i: nat | i < |c| ensures multiset(c)[c[i]] == 1 {
      forall j: nat | j < |c| && j != i ensures c[j] != c[i] {
        if i < j { TilesOrder(c, lo, hi, i, j); } else { TilesOrder(c, lo, hi, j, i); }
      }
      OnceInMultiset(c, i);
    }
    forall f, g | f in c && g in c && f.isFree && g.isFree
      ensures (f.address == g.address ==> f == g) && (f.address < g.address ==> UsedBetween(c, f, g))
    {
      var i: nat :| i < |c| && c[i] == f;
      var j: nat :| j < |c| && c[j] == g;
      FreePairIsFenced(c, lo, hi, i, j);
    }
  }

  /** Some block fits that the compaction of the coalesced list does not overwrite. */
  ghost predicate FitSurvives(c: seq<Block>, n: nat) {
    exists j :: |UsedBlocks(c)| <= j < |c| && Suits(c[j], n)
  }

  lemma PackedParts(c: seq<Block>)
    ensures var p, k := PackUsed(c), |UsedBlocks(c)|;
            && |p| == |c|
            && (forall j | k <= j < |c| :: p[j] == c[j])
            && (forall j | 0 <= j < k :: !p[j].isFree)
  {
    UsedBlocksAreUsed(c);
  }

  lemma PackedFit(c: seq<Block>, n: nat)
    ensures FindFit(PackUsed(c), n, 0).Some? <==> FitSurvives(c, n)
  {
    var p, k := PackUsed(c), |UsedBlocks(c)|;
    PackedParts(c);
    if FindFit(p, n, 0).Some? {
      assert Suits(c[FindFit(p, n, 0).value], n);
    }
    if j :| k <= j < |c| && Suits(c[j], n) { assert Suits(p[j], n); }
  }

  lemma PackedIsStuck(c: seq<Block>, lo: nat, hi: nat, n: nat)
    requires Tiles(c, lo, hi) && NoAdjacentFree(c) && !FitSurvives(c, n)
    ensures Stuck(PackUsed(c), n)
  {
    CoalescedIsFenced(c, lo, hi);
    PackKeepsFenced(c);
    PackedFit(c, n);
  }

  /** The second attempt: it returns on what the defragmentation made of the list, or never. */
  lemma RetryReturnsExactly(bs: seq<Block>, lo: nat, hi: nat, n: nat, retries: nat)
    requires Tiles(bs, lo, hi)
    ensures Reserve(Defragment(bs), n, retries).1 <==> FitSurvives(Coalesce(bs), n)
  {
    var c := Coalesce(bs);
    TilesAreSorted(bs, lo, hi);
    assert Defragment(bs) == PackUsed(c);
    if FitSurvives(c, n) {
      PackedFit(c, n);
    } else {
      CoalesceKeepsTiles(bs, lo, hi);
      CoalesceSeparates(bs);
      PackedIsStuck(c, lo, hi, n);
      StuckNeverReturns(PackUsed(c), n, retries);
    }
  }

  /**
   When a reservation returns at all. On a tiled pool it returns at once when some block fits;
   otherwise after one defragmentation, if a fitting coalesced block sits at a position not below
   the number of used blocks; otherwise never, however often it retries.
   */
  lemma ReserveReturnsExactly(bs: seq<Block>, lo: nat, hi: nat, n: nat, retries: nat)
    requires Tiles(bs, lo, hi) && retries > 0
    ensures Reserve(bs, n, retries).1 <==> FindFit(bs, n, 0).Some? || FitSurvives(Coalesce(bs), n)
  {
    if FindFit(bs, n, 0).None? {
      RetryReturnsExactly(bs, lo, hi, n, retries - 1);
    }
  }

  const CUT_UP: seq<Block> := [Block(0, 50, true), Block(50, 50, true), Block(100, 100, true)]
  const BACK_USED: seq<Block> := [Block(0, 50, true), Block(50, 50, true), Block(100, 100, false)]

  lemma BackIsTaken(retries: nat)
    ensures Reserve(CUT_UP, 100, retries) == (BACK_USED, true)
  {
    assert FindFit(CUT_UP, 100, 1) == FindFit(CUT_UP, 100, 2) == Some(2);
    assert CUT_UP[..2] + [Block(100, 100, false)] + CUT_UP[3..] == BACK_USED;
  }

  lemma LostByPacking()
    ensures !FitSurvives(Coalesce(BACK_USED), 100)
  {
    var merged := [Block(0, 100, true), Block(100, 100, false)];
    assert [Merge(BACK_USED[0], BACK_USED[1])] + BACK_USED[2..] == merged;
    CoalesceOfSeparated(merged);
    UsedBlocksAreUsed(merged);
    assert merged[1] in merged;
  }

  lemma BackUsedTiles()
    ensures Tiles(BACK_USED, 0, 200)
  {
    assert BACK_USED[1..][1..][1..] == [] && Tiles(BACK_USED[1..][1..], 100, 200) && Tiles(BACK_USED[1..], 50, 200);
  }

  /**
   Room in a row is necessary, but not enough. In a pool of three free blocks a first reservation of
   100 bytes gets the last one; a second one is found 100 bytes in a row by coalescing, and then they
   are lost.
   */
  lemma RoomCanBeLost(first: nat, retries: nat)
    ensures var (bs, ok) := Reserve(CUT_UP, 100, first);
            ok && Tiles(bs, 0, 200) && FreeRange(bs, 0, 100) && !Reserve(bs, 100, retries).1
  {
    BackIsTaken(first);
    BackUsedTiles();
    forall x: nat | x < 100 ensures FreeByte(BACK_USED, x) { assert Covers(BACK_USED[if x < 50 then 0 else 1], x); }
    if retries > 0 {
      ReserveReturnsExactly(BACK_USED, 0, 200, 100, retries);
      LostByPacking();
    }
  }

  // ----- the books

  /** The summed sizes of the used blocks. */
  function UsedBytes(bs: seq<Block>): nat {
    if bs == [] then 0 else (if bs[0].isFree then 0 else bs[0].size) + UsedBytes(bs[1..])
  }

  lemma {:induction false} UsedBytesAppend(a: seq<Block>, b: seq<Block>)
    ensures UsedBytes(a + b) == UsedBytes(a) + UsedBytes(b)
  {
    if a == [] {
      assert a + b == b;
    } else {
      UsedBytesAppend(a[1..], b);
      assert (a + b)[1..] == a[1..] + b;
    }
  }

  lemma UsedBytesAround(a: seq<Block>, mid: seq<Block>, b: seq<Block>)
    ensures UsedBytes(a + mid + b) == UsedBytes(a) + UsedBytes(mid) + UsedBytes(b)
  {
    UsedBytesAppend(a + mid, b);
    UsedBytesAppend(a, mid);
  }

  lemma SplitSlack(b: Block, n: nat)
    requires Suits(b, n)
    ensures n <= UsedBytes(Split(b, n)) <= n + HEADER
  {
    var r := Split(b, n);
    assert (n + HEADER) % U64 <= n + HEADER;
    if |r| == 2 {
      assert r[1..][1..] == [] && UsedBytes(r[1..]) == 0;
    } else {
      assert r[1..] == [];
    }
  }

  /** A reservation turns between n and n + 24 bytes into used ones. */
  lemma TakeSlack(bs: seq<Block>, i: nat, n: nat)
    requires i < |bs| && Suits(bs[i], n)
    ensures UsedBytes(bs) + n <= UsedBytes(Take(bs, i, n)) <= UsedBytes(bs) + n + HEADER
  {
    var a, b := bs[..i], bs[i + 1..];
    assert bs == a + [bs[i]] + b;
    SplitSlack(bs[i], n);
    UsedBytesAround(a, [bs[i]], b);
    UsedBytesAround(a, Split(bs[i], n), b);
    assert [bs[i]][1..] == [];
  }

  /** All blocks but the last are used. */
  predicate FrontUsed(bs: seq<Block>) {
    forall i | 0 <= i < |bs| - 1 :: !bs[i].isFree
  }

  lemma FrontUsedStays(bs: seq<Block>, i: nat, n: nat)
    requires FrontUsed(bs) && i < |bs| && Suits(bs[i], n)
    ensures i == |bs| - 1 && FrontUsed(Take(bs, i, n))
  {
  }

  lemma {:induction false} FrontUsedRoom(bs: seq<Block>, lo: nat, hi: nat)
    requires Tiles(bs, lo, hi) && FrontUsed(bs) && bs != []
    ensures var last := bs[|bs| - 1];
            UsedBytes(bs) == hi - lo - if last.isFree then last.size else 0
    decreases |bs|
  {
    TilesEnd(bs[1..], lo + bs[0].size, hi);
    if |bs| > 1 {
      FrontUsedRoom(bs[1..], lo + bs[0].size, hi);
    } else {
      assert bs[1..] == [];
    }
  }

  lemma FrontUsedIsDefragmented(bs: seq<Block>, lo: nat, hi: nat)
    requires Tiles(bs, lo, hi) && FrontUsed(bs)
    ensures Defragment(bs) == bs
  {
    TilesAreSorted(bs, lo, hi);
    CoalesceOfSeparated(bs);
    PackOfUsedFirst(bs);
  }

  lemma FrontUsedFit(bs: seq<Block>, lo: nat, hi: nat, n: nat)
    requires Tiles(bs, lo, hi) && FrontUsed(bs) && bs != [] && n > 0
    ensures n <= hi - lo - UsedBytes(bs) <==> Suits(bs[|bs| - 1], n)
    ensures FindFit(bs, n, 0) == if Suits(bs[|bs| - 1], n) then Some(|bs| - 1) else None
  {
    FrontUsedRoom(bs, lo, hi);
  }

  lemma {:induction false} FrontUsedReserve(bs: seq<Block>, lo: nat, hi: nat, n: nat, retries: nat)
    requires Tiles(bs, lo, hi) && FrontUsed(bs) && bs != [] && n > 0
    ensures n <= hi - lo - UsedBytes(bs) <==> Suits(bs[|bs| - 1], n)
    ensures Reserve(bs, n, retries) ==
            if Suits(bs[|bs| - 1], n) then (Take(bs, |bs| - 1, n), true) else (bs, false)
    decreases retries
  {
    FrontUsedFit(bs, lo, hi, n);
    if FindFit(bs, n, 0).None? && retries > 0 {
      FrontUsedIsDefragmented(bs, lo, hi);
      FrontUsedReserve(bs, lo, hi, n, retries - 1);
    }
  }

  /** What the outside asks of the pool; an optimisation defragments it twice. */
  datatype Request = Want(size: nat) | Optimize

  /** The block list, the bytes that `usedSize` counts, and how many reservations were met. */
  datatype Books = Books(blocks: seq<Block>, usedSize: nat, met: nat)

  function Serve(k: Books, r: Request, retries: nat): Books {
    match r
    case Want(n) =>
      var (bs, ok) := Reserve(k.blocks, n, retries);
      if ok then Books(bs, k.usedSize + n, k.met + 1) else k.(blocks := bs)
    case Optimize => k.(blocks := Defragment(Defragment(k.blocks)))
  }

  function ServeAll(k: Books, rs: seq<Request>, retries: nat): Books
    decreases |rs|
  {
    if rs == [] then k else ServeAll(Serve(k, rs[0], retries), rs[1..], retries)
  }

  /** The summed sizes of the requests that were met, and their number. */
  function MetBytes(k: Books, rs: seq<Request>, retries: nat): (nat, nat)
    decreases |rs|
  {
    if rs == [] then (0, 0)
    else
      var (bytes, count) := MetBytes(Serve(k, rs[0], retries), rs[1..], retries);
      if rs[0].Want? && Reserve(k.blocks, rs[0].size, retries).1 then (bytes + rs[0].size, count + 1)
      else (bytes, count)
  }

  /** `usedSize` counts just the bytes that were asked for and handed out. */
  lemma {:induction false} UsedSizeIsMetBytes(k: Books, rs: seq<Request>, retries: nat)
    ensures var (bytes, count) := MetBytes(k, rs, retries);
            var r := ServeAll(k, rs, retries);
            r.usedSize == k.usedSize + bytes && r.met == k.met + count
    decreases |rs|
  {
    if rs == [] {
    } else {
      UsedSizeIsMetBytes(Serve(k, rs[0], retries), rs[1..], retries);
    }
  }

  /** All requests are for at least one byte. */
  predicate Positive(rs: seq<Request>) {
    forall r | r in rs :: r.Want? ==> r.size > 0
  }

  /** A tiled pool that is used from the front, with at most a header of slack per reservation met. */
  ghost predicate Filling(k: Books, lo: nat, hi: nat) {
    && k.blocks != [] && Tiles(k.blocks, lo, hi) && FrontUsed(k.blocks)
    && k.usedSize <= UsedBytes(k.blocks) <= k.usedSize + HEADER * k.met
  }

  lemma ReserveKeepsFilling(k: Books, lo: nat, hi: nat, n: nat, retries: nat)
    requires Filling(k, lo, hi) && n > 0 && hi - lo + HEADER < U64
    ensures Filling(Serve(k, Want(n), retries), lo, hi)
  {
    var bs, i := k.blocks, |k.blocks| - 1;
    FrontUsedReserve(bs, lo, hi, n, retries);
    if Suits(bs[i], n) {
      TilesSplit(bs, lo, hi, i);
      CleanTakeKeepsTiles(bs, lo, hi, i, n);
      TakeSlack(bs, i, n);
      FrontUsedStays(bs, i, n);
    }
  }

  lemma {:induction false} ServeKeepsFilling(k: Books, lo: nat, hi: nat, rs: seq<Request>, retries: nat)
    requires Filling(k, lo, hi) && Positive(rs) && hi - lo + HEADER < U64
    ensures Filling(ServeAll(k, rs, retries), lo, hi)
    decreases |rs|
  {
    if rs == [] {
    } else {
      assert rs[0] in rs;
      match rs[0] {
        case Want(n) => ReserveKeepsFilling(k, lo, hi, n, retries);
        case Optimize => FrontUsedIsDefragmented(k.blocks, lo, hi);
      }
      ServeKeepsFilling(Serve(k, rs[0], retries), lo, hi, rs[1..], retries);
    }
  }

  lemma FillingReserve(bs: seq<Block>, lo: nat, hi: nat, n: nat, retries: nat)
    requires Tiles(bs, lo, hi) && FrontUsed(bs) && bs != [] && n > 0
    ensures Reserve(bs, n, retries).1 <==> n <= hi - lo - UsedBytes(bs)
    ensures Reserve(bs, n, retries) == Reserve(bs, n, 0) && Defragment(bs) == bs
  {
    FrontUsedReserve(bs, lo, hi, n, retries);
    FrontUsedReserve(bs, lo, hi, n, 0);
    FrontUsedIsDefragmented(bs, lo, hi);
  }

  lemma OneFreeBlockFills(lo: nat, total: nat)
    requires total > 0
    ensures Filling(Books([Block(lo, total, true)], 0, 0), lo, lo + total)
  {
    var start := [Block(lo, total, true)];
    assert start[1..] == [] && Tiles(start[1..], lo + total, lo + total) && UsedBytes(start[1..]) == 0;
  }

  /**
   Nothing ever frees a block of this pool, so from one free block it fills up from the front, and
   the harmful compaction never has anything to move, however often the pool is optimised: a
   request is met exactly when it is no more than the bytes not in use, at the first attempt. The
   blocks always tile the pool, and their used bytes exceed `usedSize` by at most one header per
   reservation met.
   */
  lemma FreshPoolRun(lo: nat, total: nat, rs: seq<Request>, n: nat, retries: nat)
    requires 0 < total && total + HEADER < U64 && Positive(rs) && n > 0
    ensures var k := ServeAll(Books([Block(lo, total, true)], 0, 0), rs, retries);
            && Tiles(k.blocks, lo, lo + total)
            && k.usedSize <= UsedBytes(k.blocks) <= k.usedSize + HEADER * k.met
            && (Reserve(k.blocks, n, retries).1 <==> n <= total - UsedBytes(k.blocks))
            && Reserve(k.blocks, n, retries) == Reserve(k.blocks, n, 0)
            && Defragment(k.blocks) == k.blocks
  {
    var k := Books([Block(lo, total, true)], 0, 0);
    OneFreeBlockFills(lo, total);
    ServeKeepsFilling(k, lo, lo + total, rs, retries);
    FillingReserve(ServeAll(k, rs, retries).blocks, lo, lo + total, n, retries);
  }

  // ----- the loops

  /** The packed list after readIndex entries, and what the next entry does to it. */
  lemma PackStep(before: seq<Block>, r: nat)
    requires r < |before|
    ensures var u, v := UsedBlocks(before[..r]), UsedBlocks(before[..r + 1]);
            var packed := u + before[|u|..];
            && |u| <= r && packed[r] == before[r]
            && if before[r].isFree then v == u
               else |v| == |u| + 1 && packed[|u| := before[r]] == v + before[|v|..]
  {
    assert before[..r + 1][..r] == before[..r];
  }

  /** Stepping a size_t counter back and on again is harmless, even at 0. */
  lemma CounterStepsBack(i: nat)
    requires i < U64
    ensures ((i - 1) % U64 + 1) % U64 == i
  {
  }

  /** Block i takes in the block behind it, which is erased. */
  function MergeAt(bs: seq<Block>, i: nat): seq<Block>
    requires i + 1 < |bs|
  {
    bs[..i] + [Merge(bs[i], bs[i + 1])] + bs[i + 2..]
  }

  /** Coalescing the blocks from i on is all that is left to do. */
  ghost predicate CoalescedUpTo(bs: seq<Block>, i: nat, goal: seq<Block>) {
    i <= |bs| && bs[..i] + Coalesce(bs[i..]) == goal
  }

  lemma CoalesceStep(bs: seq<Block>, i: nat, goal: seq<Block>)
    requires i + 1 < |bs| && CoalescedUpTo(bs, i, goal)
    ensures if bs[i].isFree && bs[i + 1].isFree then
              var m := MergeAt(bs, i); |m| == |bs| - 1 && CoalescedUpTo(m, i, goal)
            else CoalescedUpTo(bs, i + 1, goal)
  {
    var t := bs[i..];
    if bs[i].isFree && bs[i + 1].isFree {
      var m := MergeAt(bs, i);
      assert m[..i] == bs[..i] && m[i..] == [Merge(t[0], t[1])] + t[2..];
    } else {
      assert t[1..] == bs[i + 1..] && bs[..i + 1] == bs[..i] + [t[0]];
    }
  }

  lemma CoalesceEnd(bs: seq<Block>, i: nat, goal: seq<Block>)
    requires CoalescedUpTo(bs, i, goal) && |bs| <= i + 1
    ensures bs == goal
  {
    assert bs[..i] + bs[i..] == bs;
  }

  lemma {:induction false} CoalesceLength(bs: seq<Block>)
    ensures |Coalesce(bs)| <= |bs| && (bs != [] ==> Coalesce(bs) != [])
    decreases |bs|
  {
    if |bs| < 2 {
    } else {
      CoalesceLength(if bs[0].isFree && bs[1].isFree then [Merge(bs[0], bs[1])] + bs[2..] else bs[1..]);
    }
  }

  lemma DefragmentLength(bs: seq<Block>)
    ensures |Defragment(bs)| <= |bs| && (bs != [] ==> Defragment(bs) != [])
  {
    var s := SortByAddress(bs);
    assert |multiset(s)| == |multiset(bs)|;
    assert |s| == |bs|;
    CoalesceLength(s);
  }

  // ----- the manager itself

  class GraphicsMemory {
    var usedSize: nat
    var blocks: seq<Block>

    constructor (pool: seq<Block>)
      ensures blocks == pool && usedSize == 0
    {
      blocks, usedSize := pool, 0;
    }

    /** The coalescing loop. Its counter steps back after a merge, from 0 through SIZE_MAX. */
    method CoalesceFree()
      requires 0 < |blocks| < U64
      modifies this`blocks
      ensures blocks == Coalesce(old(blocks))
    {
      var i: nat := 0;
      ghost var goal := Coalesce(blocks);
      assert blocks[0..] == blocks;
      while i < |blocks| - 1
        invariant 0 < |blocks| < U64 && CoalescedUpTo(blocks, i, goal)
        decreases |blocks| - i
      {
        CoalesceStep(blocks, i, goal);
        if blocks[i].isFree && blocks[i + 1].isFree {
          ghost var merged := MergeAt(blocks, i);
          blocks := blocks[i := Merge(blocks[i], blocks[i + 1])];
          blocks := blocks[..i + 1] + blocks[i + 2..];
          assert blocks == merged;
          CounterStepsBack(i);
          i := (i - 1) % U64;
        } else {
          NoWrap(i + 1, i + 1);
        }
        i := (i + 1) % U64;
      }
      CoalesceEnd(blocks, i, goal);
    }

    /** The compaction loop: descriptors of used blocks move to the front. */
    method PackDescriptors()
      modifies this`blocks
      ensures blocks == PackUsed(old(blocks))
    {
      ghost var before := blocks;
      var writeIndex := 0;
      for readIndex := 0 to |blocks|
        invariant |blocks| == |before| && writeIndex == |UsedBlocks(before[..readIndex])|
        invariant blocks == UsedBlocks(before[..readIndex]) + before[writeIndex..]
      {
        PackStep(before, readIndex);
        if !blocks[readIndex].isFree {
          if writeIndex != readIndex {
            blocks := blocks[writeIndex := blocks[readIndex]];
          }
          writeIndex := writeIndex + 1;
        }
      }
      assert before[..|before|] == before;
    }

    method DefragmentMemory()
      requires 0 < |blocks| < U64
      modifies this`blocks
      ensures blocks == Defragment(old(blocks))
    {
      ghost var before := blocks;
      blocks := SortByAddress(blocks);
      assert multiset(blocks) == multiset(before) && |blocks| == |before|;
      CoalesceFree();
      PackDescriptors();
    }

    /** The part of `optimizeMemoryAllocation` that concerns the blocks: two defragmentations. */
    method OptimizeMemoryAllocation()
      requires 0 < |blocks| < U64
      modifies this`blocks
      ensures blocks == Defragment(Defragment(old(blocks)))
    {
      DefragmentLength(blocks);
      DefragmentMemory();
      DefragmentMemory();
    }

    /** The recursion of the code, cut off after so many defragmentations. */
    method ReserveMemoryBlock(size: nat, retries: nat) returns (ok: bool)
      requires 0 < |blocks| < U64 && size < U64
      modifies this
      ensures (blocks, ok) == Reserve(old(blocks), size, retries)
      ensures usedSize == if ok then old(usedSize) + size else old(usedSize)
      decreases retries
    {
      for i := 0 to |blocks|
        invariant blocks == old(blocks) && usedSize == old(usedSize)
        invariant FindFit(blocks, size, 0) == FindFit(blocks, size, i)
      {
        if Suits(blocks[i], size) {
          if blocks[i].size > (size + HEADER) % U64 {
            var newBlock := Block(blocks[i].address + size, blocks[i].size - size, true);
            blocks := blocks[i := blocks[i].(size := size)];
            blocks := blocks[..i + 1] + [newBlock] + blocks[i + 1..];
          }
          blocks := blocks[i := blocks[i].(isFree := false)];
          usedSize := usedSize + size;
          assert blocks == Take(old(blocks), i, size);
          return true;
        }
      }
      if retries == 0 { return false; }
      DefragmentMemory();
      DefragmentLength(old(blocks));
      ok := ReserveMemoryBlock(size, retries - 1);
    }
  }
}
