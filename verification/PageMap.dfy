/**
 The page side of the memory manager (memory/MemoryManager.cpp): page table, direct-mapped TLB,
 page allocation records and the pool of physical pages, as a value with its step functions.
 */
module PageMapping {
  import opened Prelude

  const TLB_SIZE: nat := 256

  datatype TlbEntry = TlbEntry(virt: nat, phys: nat, valid: bool)

  datatype PageMap = PageMap(table: map<nat, nat>, tlb: seq<TlbEntry>, allocations: map<nat, nat>, pool: set<nat>) {

    function MapPage(v: nat, frame: nat): (m: PageMap)
      requires |tlb| == TLB_SIZE
      ensures |m.tlb| == TLB_SIZE
    {
      this.(table := table[v := frame], tlb := tlb[v % TLB_SIZE := TlbEntry(v, frame, true)], pool := pool - {frame})
    }

    /** Pages v, v + 4096, ... get the given frames, in order. */
    function MapPages(v: nat, frames: seq<nat>): (m: PageMap)
      requires |tlb| == TLB_SIZE
      ensures |m.tlb| == TLB_SIZE
      decreases |frames|
    {
      if frames == [] then this
      else
        var n := |frames| - 1;
        MapPages(v, frames[..n]).MapPage(v + n * PAGE_SIZE, frames[n])
    }

    function UnmapPage(v: nat): (m: PageMap)
      requires |tlb| == TLB_SIZE
      ensures |m.tlb| == TLB_SIZE
    {
      var flushed := tlb[v % TLB_SIZE := tlb[v % TLB_SIZE].(valid := false)];
      if v in table then this.(tlb := flushed, table := table - {v}, pool := pool + {table[v]})
      else this.(tlb := flushed)
    }

    function UnmapPages(v: nat, n: nat): (m: PageMap)
      requires |tlb| == TLB_SIZE
      ensures |m.tlb| == TLB_SIZE
    {
      if n == 0 then this else UnmapPages(v, n - 1).UnmapPage(v + (n - 1) * PAGE_SIZE)
    }

    /** The page half of `allocateMemory`, once the page allocator has answered v. */
    function Allocate(v: nat, frames: seq<nat>): (m: PageMap)
      requires |tlb| == TLB_SIZE
      ensures |m.tlb| == TLB_SIZE
    {
      var m := MapPages(v, frames);
      m.(allocations := m.allocations[v := |frames|])
    }

    /** The page half of `freeMemory`, and its answer. */
    function Free(v: nat): (r: (PageMap, bool))
      requires |tlb| == TLB_SIZE
      ensures |r.0.tlb| == TLB_SIZE
    {
      if v !in allocations then (this, false)
      else
        var m := UnmapPages(v, allocations[v]);
        (m.(allocations := m.allocations - {v}), true)
    }

    /** Every valid TLB slot sits at its own index and agrees with the page table. */
    ghost predicate Coherent() {
      && |tlb| == TLB_SIZE
      && forall i | 0 <= i < TLB_SIZE && tlb[i].valid ::
           tlb[i].virt % TLB_SIZE == i && tlb[i].virt in table && table[tlb[i].virt] == tlb[i].phys
    }

    ghost predicate PageAligned() {
      && (forall e | e in tlb && e.valid :: e.virt % PAGE_SIZE == 0)
      && (forall v | v in allocations :: v % PAGE_SIZE == 0)
    }
  }

  /** a is one of the n pages from v on. */
  ghost predicate InPages(v: nat, n: nat, a: nat) {
    v <= a < v + n * PAGE_SIZE && (a - v) % PAGE_SIZE == 0
  }

  ghost predicate Owns(m: PageMap, v: nat, a: nat) {
    v in m.allocations && InPages(v, m.allocations[v], a)
  }

  ghost predicate Injective(t: map<nat, nat>) {
    forall a, b | a in t && b in t && t[a] == t[b] :: a == b
  }

  /** The page table's domain is the disjoint union of the pages of the live allocations. */
  ghost predicate OwnershipExact(m: PageMap) {
    && (forall v: nat, a: nat | Owns(m, v, a) :: a in m.table)
    && (forall a: nat | a in m.table :: exists v: nat :: Owns(m, v, a))
    && (forall v: nat, w: nat, a: nat | Owns(m, v, a) && Owns(m, w, a) :: v == w)
  }

  /** Distinct virtual pages hold distinct frames, and every frame is either mapped or in the pool. */
  ghost predicate FramesConserved(m: PageMap, frames: set<nat>) {
    && Injective(m.table)
    && m.table.Values !! m.pool
    && m.table.Values + m.pool == frames
  }

  ghost predicate Conserved(m: PageMap, frames: set<nat>) {
    OwnershipExact(m) && FramesConserved(m, frames)
  }

  // ----- what mapping and unmapping a range does

  lemma InPagesLast(v: nat, n: nat, a: nat)
    ensures InPages(v, n + 1, a) <==> InPages(v, n, a) || a == v + n * PAGE_SIZE
  {
  }

  ghost predicate Distinct(s: seq<nat>) {
    forall i, j | 0 <= i < j < |s| :: s[i] != s[j]
  }

  lemma {:induction false} MapPagesTakesFrames(m: PageMap, v: nat, frames: seq<nat>)
    requires |m.tlb| == TLB_SIZE
    ensures var r := m.MapPages(v, frames);
            r.allocations == m.allocations && r.pool == m.pool - (set f | f in frames)
    decreases |frames|
  {
    if frames == [] {
    } else {
      var n := |frames| - 1;
      MapPagesTakesFrames(m, v, frames[..n]);
      assert frames == frames[..n] + [frames[n]];
    }
  }

  lemma {:induction false} MapPagesFillsTable(m: PageMap, v: nat, frames: seq<nat>)
    requires |m.tlb| == TLB_SIZE
    ensures var r := m.MapPages(v, frames);
            && (forall a: nat :: a in r.table <==> a in m.table || InPages(v, |frames|, a))
            && (forall a: nat | a in m.table && !InPages(v, |frames|, a) :: r.table[a] == m.table[a])
            && (forall k | 0 <= k < |frames| :: v + k * PAGE_SIZE in r.table && r.table[v + k * PAGE_SIZE] == frames[k])
    decreases |frames|
  {
    if frames == [] {
    } else {
      var n := |frames| - 1;
      MapPagesFillsTable(m, v, frames[..n]);
      forall a: nat ensures InPages(v, n + 1, a) <==> InPages(v, n, a) || a == v + n * PAGE_SIZE {
        InPagesLast(v, n, a);
      }
      var t, last := m.MapPages(v, frames[..n]).table, v + n * PAGE_SIZE;
      assert m.MapPages(v, frames).table == t[last := frames[n]];
      forall k | 0 <= k < n ensures v + k * PAGE_SIZE != last && t[v + k * PAGE_SIZE] == frames[k] {
        assert frames[..n][k] == frames[k];
      }
    }
  }

  /** After a range is mapped: exactly its pages are new, and their frames have left the pool. */
  lemma MapPagesEffect(m: PageMap, v: nat, frames: seq<nat>)
    requires |m.tlb| == TLB_SIZE
    ensures var r := m.MapPages(v, frames);
            && r.allocations == m.allocations
            && (forall a: nat :: a in r.table <==> a in m.table || InPages(v, |frames|, a))
            && (forall a: nat | a in m.table && !InPages(v, |frames|, a) :: r.table[a] == m.table[a])
            && (forall k | 0 <= k < |frames| :: v + k * PAGE_SIZE in r.table && r.table[v + k * PAGE_SIZE] == frames[k])
            && r.pool == m.pool - (set f | f in frames)
  {
    MapPagesTakesFrames(m, v, frames);
    MapPagesFillsTable(m, v, frames);
  }

  /** After a range is unmapped: exactly its pages are gone, and their frames are back in the pool. */
  lemma {:induction false} UnmapPagesEffect(m: PageMap, v: nat, n: nat)
    requires |m.tlb| == TLB_SIZE
    ensures var r := m.UnmapPages(v, n);
            && r.allocations == m.allocations
            && (forall a: nat :: a in r.table <==> a in m.table && !InPages(v, n, a))
            && (forall a: nat | a in r.table :: r.table[a] == m.table[a])
            && (forall f: nat :: f in r.pool <==>
                  f in m.pool || exists a: nat :: InPages(v, n, a) && a in m.table && m.table[a] == f)
  {
    if n == 0 {
    } else {
      UnmapPagesEffect(m, v, n - 1);
      var last := v + (n - 1) * PAGE_SIZE;
      forall a: nat ensures InPages(v, n, a) <==> InPages(v, n - 1, a) || a == last {
        InPagesLast(v, n - 1, a);
      }
      assert InPages(v, n, last) && !InPages(v, n - 1, last);
    }
  }

  // ----- TLB coherence

  lemma {:induction false} MapPagesKeepsCoherent(m: PageMap, v: nat, frames: seq<nat>)
    requires m.Coherent()
    ensures m.MapPages(v, frames).Coherent()
    decreases |frames|
  {
    if frames == [] {
    } else {
      MapPagesKeepsCoherent(m, v, frames[..|frames| - 1]);
    }
  }

  lemma {:induction false} UnmapPagesKeepsCoherent(m: PageMap, v: nat, n: nat)
    requires m.Coherent()
    ensures m.UnmapPages(v, n).Coherent()
  {
    if n == 0 {
    } else {
      UnmapPagesKeepsCoherent(m, v, n - 1);
    }
  }

  lemma PageStride(v: nat, k: nat)
    ensures (v + k * PAGE_SIZE) % PAGE_SIZE == v % PAGE_SIZE
  {
  }

  lemma {:induction false} MapPagesKeepsAligned(m: PageMap, v: nat, frames: seq<nat>)
    requires |m.tlb| == TLB_SIZE && m.PageAligned() && v % PAGE_SIZE == 0
    ensures m.MapPages(v, frames).PageAligned()
    decreases |frames|
  {
    if frames == [] {
    } else {
      MapPagesKeepsAligned(m, v, frames[..|frames| - 1]);
      PageStride(v, |frames| - 1);
    }
  }

  lemma {:induction false} UnmapPagesKeepsAligned(m: PageMap, v: nat, n: nat)
    requires |m.tlb| == TLB_SIZE && m.PageAligned()
    ensures m.UnmapPages(v, n).PageAligned()
  {
    if n == 0 {
    } else {
      UnmapPagesKeepsAligned(m, v, n - 1);
      var r := m.UnmapPages(v, n - 1);
      forall e | e in m.UnmapPages(v, n).tlb && e.valid ensures e in r.tlb {}
    }
  }

  /** All installed addresses are page aligned, and 256 divides 4096: only slot 0 is ever valid. */
  lemma OnlySlotZeroIsValid(m: PageMap, i: nat)
    requires m.Coherent() && m.PageAligned() && i < TLB_SIZE && m.tlb[i].valid
    ensures i == 0
  {
  }

  // ----- what the TLB holds

  lemma SlotOfMultiple(v: nat, k: nat)
    ensures (v + k * TLB_SIZE) % TLB_SIZE == v % TLB_SIZE
  {
  }

  /** All pages of a range share their TLB slot: 256 divides 4096. */
  lemma RangeHasOneSlot(v: nat, k: nat)
    ensures (v + k * PAGE_SIZE) % TLB_SIZE == v % TLB_SIZE
  {
    assert k * PAGE_SIZE == (k * 16) * TLB_SIZE;
    SlotOfMultiple(v, k * 16);
  }

  lemma {:induction false} MapPagesSlots(m: PageMap, v: nat, frames: seq<nat>)
    requires |m.tlb| == TLB_SIZE
    ensures var r := m.MapPages(v, frames);
            && (forall i: nat | i < TLB_SIZE && i != v % TLB_SIZE :: r.tlb[i] == m.tlb[i])
            && (frames == [] ==> r.tlb == m.tlb)
            && (frames != [] ==>
                  var n := |frames| - 1; r.tlb[v % TLB_SIZE] == TlbEntry(v + n * PAGE_SIZE, frames[n], true))
    decreases |frames|
  {
    if frames == [] {
    } else {
      var n := |frames| - 1;
      MapPagesSlots(m, v, frames[..n]);
      RangeHasOneSlot(v, n);
    }
  }

  /** Mapping a range leaves its last page in its TLB slot, valid, and all other slots as they were. */
  lemma MapPagesFillsTlb(m: PageMap, v: nat, frames: seq<nat>)
    requires |m.tlb| == TLB_SIZE && frames != []
    ensures var last := v + (|frames| - 1) * PAGE_SIZE;
            var r := m.Allocate(v, frames);
            && r.tlb[last % 256] == TlbEntry(last, frames[|frames| - 1], true)
            && forall i: nat | i < 256 && i != last % 256 :: r.tlb[i] == m.tlb[i]
  {
    MapPagesSlots(m, v, frames);
    RangeHasOneSlot(v, |frames| - 1);
  }

  /** Unmapping a non-empty range invalidates its TLB slot and leaves all other slots as they were. */
  lemma {:induction false} UnmapPagesFlushes(m: PageMap, v: nat, n: nat)
    requires |m.tlb| == TLB_SIZE
    ensures var r := m.UnmapPages(v, n);
            && (forall i: nat | i < 256 && i != v % 256 :: r.tlb[i] == m.tlb[i])
            && r.tlb[v % 256] == if n == 0 then m.tlb[v % 256] else m.tlb[v % 256].(valid := false)
  {
    if n == 0 {
    } else {
      UnmapPagesFlushes(m, v, n - 1);
      RangeHasOneSlot(v, n - 1);
    }
  }

  // ----- conservation

  /** What the page allocator and the frame pool hand out: an unused range, distinct pooled frames. */
  ghost predicate Granted(m: PageMap, v: nat, frames: seq<nat>) {
    && v !in m.allocations
    && (forall a: nat | InPages(v, |frames|, a) :: a !in m.table)
    && Distinct(frames)
    && forall f | f in frames :: f in m.pool
  }

  lemma AllocateKeepsOwnership(m: PageMap, v: nat, frames: seq<nat>)
    requires |m.tlb| == TLB_SIZE && OwnershipExact(m) && Granted(m, v, frames)
    ensures OwnershipExact(m.Allocate(v, frames))
  {
    var r := m.Allocate(v, frames);
    MapPagesEffect(m, v, frames);
    forall w: nat, a: nat ensures Owns(r, w, a) <==> Owns(m, w, a) || (w == v && InPages(v, |frames|, a)) {}
    forall a: nat | a in r.table ensures exists w: nat :: Owns(r, w, a) {
      if a in m.table {
        var w: nat :| Owns(m, w, a);
        assert Owns(r, w, a);
      } else {
        assert Owns(r, v, a);
      }
    }
  }

  /** In the freshly mapped range, page a holds the frame handed out for it. */
  lemma FreshFrame(m: PageMap, v: nat, frames: seq<nat>, a: nat) returns (k: nat)
    requires |m.tlb| == TLB_SIZE && InPages(v, |frames|, a)
    ensures k < |frames| && a == v + k * PAGE_SIZE
    ensures a in m.MapPages(v, frames).table && m.MapPages(v, frames).table[a] == frames[k]
  {
    k := (a - v) / PAGE_SIZE;
    assert a == v + k * PAGE_SIZE;
    MapPagesEffect(m, v, frames);
  }

  lemma AllocateKeepsInjective(m: PageMap, v: nat, frames: seq<nat>)
    requires |m.tlb| == TLB_SIZE && Injective(m.table) && m.table.Values !! m.pool && Granted(m, v, frames)
    ensures Injective(m.Allocate(v, frames).table)
  {
    var t := m.Allocate(v, frames).table;
    MapPagesEffect(m, v, frames);
    forall a: nat, b: nat | a in t && b in t && t[a] == t[b] ensures a == b {
      assert a in m.table ==> m.table[a] in m.table.Values;
      assert b in m.table ==> m.table[b] in m.table.Values;
      if a !in m.table { var i := FreshFrame(m, v, frames, a); }
      if b !in m.table { var j := FreshFrame(m, v, frames, b); }
    }
  }

  lemma AllocateKeepsFrames(m: PageMap, v: nat, frames: seq<nat>, all: set<nat>)
    requires |m.tlb| == TLB_SIZE && FramesConserved(m, all) && Granted(m, v, frames)
    ensures FramesConserved(m.Allocate(v, frames), all)
  {
    AllocateKeepsInjective(m, v, frames);
    var r := m.Allocate(v, frames);
    MapPagesEffect(m, v, frames);
    forall f: nat ensures f in r.table.Values <==> f in m.table.Values || f in frames {
      if f in r.table.Values {
        var a: nat :| a in r.table && r.table[a] == f;
        if a !in m.table { var k := FreshFrame(m, v, frames, a); }
      }
      if f in frames {
        var k :| 0 <= k < |frames| && frames[k] == f;
        assert v + k * PAGE_SIZE in r.table;
      }
      if f in m.table.Values {
        var a: nat :| a in m.table && m.table[a] == f;
        assert a in r.table && r.table[a] == f;
      }
    }
  }

  lemma FreeLeavesOtherOwners(m: PageMap, v: nat, w: nat, a: nat)
    requires |m.tlb| == TLB_SIZE && OwnershipExact(m) && v in m.allocations
    ensures Owns(m.Free(v).0, w, a) <==> Owns(m, w, a) && !InPages(v, m.allocations[v], a)
  {
    var r := m.Free(v).0;
    assert r.allocations == m.allocations - {v} by { UnmapPagesEffect(m, v, m.allocations[v]); }
    assert InPages(v, m.allocations[v], a) <==> Owns(m, v, a);
    assert Owns(m, v, a) && Owns(m, w, a) ==> v == w;
    assert w != v ==> (Owns(r, w, a) <==> Owns(m, w, a));
  }

  lemma FreeKeepsOwnership(m: PageMap, v: nat)
    requires |m.tlb| == TLB_SIZE && OwnershipExact(m)
    ensures OwnershipExact(m.Free(v).0)
  {
    if v in m.allocations {
      var r := m.Free(v).0;
      UnmapPagesEffect(m, v, m.allocations[v]);
      forall w: nat, a: nat | Owns(r, w, a) ensures Owns(m, w, a) && a in r.table {
        FreeLeavesOtherOwners(m, v, w, a);
      }
      forall a: nat | a in r.table ensures exists w: nat :: Owns(r, w, a) {
        var w: nat :| Owns(m, w, a);
        FreeLeavesOtherOwners(m, v, w, a);
      }
    }
  }

  lemma FreeKeepsFrames(m: PageMap, v: nat, all: set<nat>)
    requires |m.tlb| == TLB_SIZE && FramesConserved(m, all)
    ensures FramesConserved(m.Free(v).0, all)
  {
    if v in m.allocations {
      var r := m.Free(v).0;
      var n := m.allocations[v];
      UnmapPagesEffect(m, v, n);
      forall f: nat | f in r.table.Values ensures f in m.table.Values && f !in r.pool {
        var a: nat :| a in r.table && r.table[a] == f;
        assert a in m.table && m.table[a] == f;
        forall b: nat | InPages(v, n, b) && b in m.table ensures m.table[b] != f {}
      }
      forall f: nat | f in all ensures f in r.table.Values || f in r.pool {
        if f in m.table.Values {
          var a: nat :| a in m.table && m.table[a] == f;
          assert InPages(v, n, a) || (a in r.table && r.table[a] == f);
        }
      }
      forall f: nat | f in r.pool ensures f in all {}
    }
  }

  // ----- whole runs

  datatype Op = Map(v: nat, frames: seq<nat>) | Unmap(ptr: nat)

  function Step(m: PageMap, op: Op): (r: PageMap)
    requires |m.tlb| == TLB_SIZE
    ensures |r.tlb| == TLB_SIZE
  {
    match op
    case Map(v, frames) => m.Allocate(v, frames)
    case Unmap(ptr) => m.Free(ptr).0
  }

  function Run(m: PageMap, ops: seq<Op>): (r: PageMap)
    requires |m.tlb| == TLB_SIZE
    ensures |r.tlb| == TLB_SIZE
    decreases |ops|
  {
    if ops == [] then m else Run(Step(m, ops[0]), ops[1..])
  }

  /** The page map as the constructor leaves it, with every frame in the pool. */
  function Initial(frames: set<nat>): PageMap {
    PageMap(map[], seq(TLB_SIZE, i => TlbEntry(0, 0, false)), map[], frames)
  }

  /** Coherence needs nothing of the collaborators: it holds after any operations whatsoever. */
  lemma {:induction false} RunKeepsCoherent(m: PageMap, ops: seq<Op>)
    requires m.Coherent()
    ensures Run(m, ops).Coherent()
    decreases |ops|
  {
    if ops == [] {
    } else {
      match ops[0] {
        case Map(v, frames) => MapPagesKeepsCoherent(m, v, frames);
        case Unmap(ptr) => if ptr in m.allocations { UnmapPagesKeepsCoherent(m, ptr, m.allocations[ptr]); }
      }
      RunKeepsCoherent(Step(m, ops[0]), ops[1..]);
    }
  }

  ghost predicate AlignedOps(ops: seq<Op>) {
    forall i | 0 <= i < |ops| && ops[i].Map? :: ops[i].v % PAGE_SIZE == 0
  }

  lemma {:induction false} RunKeepsAligned(m: PageMap, ops: seq<Op>)
    requires |m.tlb| == TLB_SIZE && m.PageAligned() && AlignedOps(ops)
    ensures Run(m, ops).PageAligned()
    decreases |ops|
  {
    if ops == [] {
    } else {
      match ops[0] {
        case Map(v, frames) => MapPagesKeepsAligned(m, v, frames);
        case Unmap(ptr) => if ptr in m.allocations { UnmapPagesKeepsAligned(m, ptr, m.allocations[ptr]); }
      }
      RunKeepsAligned(Step(m, ops[0]), ops[1..]);
    }
  }

  /** Every allocation in the run is answered with an unused range and with distinct pooled frames. */
  ghost predicate GrantedOps(m: PageMap, ops: seq<Op>)
    requires |m.tlb| == TLB_SIZE
    decreases |ops|
  {
    ops == [] ||
    ((ops[0].Map? ==> Granted(m, ops[0].v, ops[0].frames)) && GrantedOps(Step(m, ops[0]), ops[1..]))
  }

  lemma {:induction false} RunKeepsConserved(m: PageMap, ops: seq<Op>, all: set<nat>)
    requires |m.tlb| == TLB_SIZE && Conserved(m, all) && GrantedOps(m, ops)
    ensures Conserved(Run(m, ops), all)
    decreases |ops|
  {
    if ops == [] {
    } else {
      match ops[0] {
        case Map(v, frames) => AllocateKeepsOwnership(m, v, frames); AllocateKeepsFrames(m, v, frames, all);
        case Unmap(ptr) => FreeKeepsOwnership(m, ptr); FreeKeepsFrames(m, ptr, all);
      }
      RunKeepsConserved(Step(m, ops[0]), ops[1..], all);
    }
  }

  /**
   From boot, after any run of page-aligned allocations and of frees of any pointer: the TLB
   agrees with the page table and holds at most one valid entry.
   */
  lemma EveryRunHasCoherentTlb(frames: set<nat>, ops: seq<Op>)
    requires AlignedOps(ops)
    ensures var m := Run(Initial(frames), ops);
            && m.Coherent()
            && forall i: nat | i < TLB_SIZE && m.tlb[i].valid :: i == 0
  {
    var m := Run(Initial(frames), ops);
    RunKeepsCoherent(Initial(frames), ops);
    RunKeepsAligned(Initial(frames), ops);
    forall i: nat | i < TLB_SIZE && m.tlb[i].valid ensures i == 0 { OnlySlotZeroIsValid(m, i); }
  }

  /**
   The last page mapped, and its frame, if since then no free of a live, non-empty allocation has
   succeeded. It is told from the operations and from which allocations are live.
   */
  function LastMapped(m: PageMap, ops: seq<Op>): Option<(nat, nat)>
    requires |m.tlb| == TLB_SIZE
    decreases |ops|
  {
    if ops == [] then None
    else
      var n := |ops| - 1;
      var before := Run(m, ops[..n]);
      match ops[n]
      case Map(v, frames) =>
        if frames == [] then LastMapped(m, ops[..n])
        else Some((v + (|frames| - 1) * PAGE_SIZE, frames[|frames| - 1]))
      case Unmap(ptr) =>
        if ptr in before.allocations && before.allocations[ptr] > 0 then None else LastMapped(m, ops[..n])
  }

  lemma {:induction false} RunSnoc(m: PageMap, ops: seq<Op>, op: Op)
    requires |m.tlb| == TLB_SIZE
    ensures Run(m, ops + [op]) == Step(Run(m, ops), op)
    decreases |ops|
  {
    if ops == [] {
      assert ops + [op] == [op] && [op][1..] == [];
    } else {
      RunSnoc(Step(m, ops[0]), ops[1..], op);
      assert (ops + [op])[1..] == ops[1..] + [op];
    }
  }

  lemma AlignedSlot(v: nat)
    requires v % PAGE_SIZE == 0
    ensures v % TLB_SIZE == 0
  {
    assert v == v / PAGE_SIZE * 16 * TLB_SIZE;
    SlotOfMultiple(0, v / PAGE_SIZE * 16);
  }

  lemma MapSlotZero(m: PageMap, v: nat, frames: seq<nat>)
    requires |m.tlb| == TLB_SIZE && v % PAGE_SIZE == 0
    ensures m.Allocate(v, frames).tlb[0] ==
            if frames == [] then m.tlb[0]
            else TlbEntry(v + (|frames| - 1) * PAGE_SIZE, frames[|frames| - 1], true)
  {
    MapPagesSlots(m, v, frames);
    AlignedSlot(v);
  }

  lemma UnmapSlotZero(m: PageMap, ptr: nat)
    requires |m.tlb| == TLB_SIZE && m.PageAligned()
    ensures m.Free(ptr).0.tlb[0] ==
            if ptr in m.allocations && m.allocations[ptr] > 0 then m.tlb[0].(valid := false) else m.tlb[0]
  {
    if ptr in m.allocations {
      UnmapPagesFlushes(m, ptr, m.allocations[ptr]);
      AlignedSlot(ptr);
    }
  }

  /**
   From boot, over any page-aligned run: slot 0 holds the last page mapped with its frame, and is
   valid exactly until the next successful free of a non-empty allocation.
   */
  lemma {:induction false} SlotZeroHoldsLastMapped(frames: set<nat>, ops: seq<Op>)
    requires AlignedOps(ops)
    ensures var e := Run(Initial(frames), ops).tlb[0];
            match LastMapped(Initial(frames), ops)
            case Some(page) => e == TlbEntry(page.0, page.1, true)
            case None => !e.valid
    decreases |ops|
  {
    if ops == [] {
    } else {
      var n := |ops| - 1;
      var m := Run(Initial(frames), ops[..n]);
      SlotZeroHoldsLastMapped(frames, ops[..n]);
      RunKeepsAligned(Initial(frames), ops[..n]);
      match ops[n] {
        case Map(v, pages) => MapSlotZero(m, v, pages);
        case Unmap(ptr) => UnmapSlotZero(m, ptr);
      }
      RunSnoc(Initial(frames), ops[..n], ops[n]);
      assert ops[..n] + [ops[n]] == ops;
    }
  }

  lemma {:induction false} InjectiveValues(t: map<nat, nat>)
    requires Injective(t)
    ensures |t.Values| == |t|
    decreases |t|
  {
    if t == map[] {
    } else {
      var k :| k in t;
      var u := t - {k};
      assert t.Keys == u.Keys + {k};
      assert t.Values == u.Values + {t[k]} by {
        forall f | f in t.Values ensures f in u.Values + {t[k]} {
          var a :| a in t && t[a] == f;
          assert a != k ==> a in u && u[a] == f;
        }
      }
      assert t[k] !in u.Values;
      InjectiveValues(u);
    }
  }

  /** From boot, no run loses, duplicates or shares a frame, and mapped pages are exactly the live ones. */
  lemma EveryRunConservesPages(frames: set<nat>, ops: seq<Op>)
    requires GrantedOps(Initial(frames), ops)
    ensures var m := Run(Initial(frames), ops);
            Conserved(m, frames) && |m.table| + |m.pool| == |frames|
  {
    var m := Run(Initial(frames), ops);
    RunKeepsConserved(Initial(frames), ops, frames);
    InjectiveValues(m.table);
    assert m.table.Keys == m.table.Keys && |m.table.Values + m.pool| == |m.table.Values| + |m.pool|;
  }

  /** A second free of the same page pointer answers false and changes nothing. */
  lemma SecondFreeRefused(m: PageMap, ptr: nat)
    requires |m.tlb| == TLB_SIZE
    ensures m.Free(ptr).1 <==> ptr in m.allocations
    ensures var r := m.Free(ptr).0; r.Free(ptr) == (r, false)
  {
  }

  /** Freeing a block just allocated gives back the page table, the records and the frame pool. */
  lemma AllocateThenFree(m: PageMap, v: nat, frames: seq<nat>)
    requires |m.tlb| == TLB_SIZE && Granted(m, v, frames)
    ensures var (r, ok) := m.Allocate(v, frames).Free(v);
            ok && r.table == m.table && r.allocations == m.allocations && r.pool == m.pool
  {
    var a := m.Allocate(v, frames);
    var r := a.Free(v).0;
    MapPagesEffect(m, v, frames);
    UnmapPagesEffect(a, v, |frames|);
    forall f: nat ensures f in r.pool <==> f in m.pool {
      if f in frames {
        var k :| 0 <= k < |frames| && frames[k] == f;
        assert InPages(v, |frames|, v + k * PAGE_SIZE) by { PageStride(0, k); }
      }
      if b: nat :| InPages(v, |frames|, b) && b in a.table && a.table[b] == f {
        var k := FreshFrame(m, v, frames, b);
      }
    }
  }
}
