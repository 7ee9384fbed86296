/**
 The bitmap page allocator (memory/PageAllocator.hpp): first-fit search over a packed bitmap,
 release of a range, and the fragment counter. `Pages` is the allocator's state as a value;
 the class works on the bytes in place and is proved to compute the functions on `Pages`.
 */
module PageAllocation {
  import opened Prelude
  import opened BitRuns
  import opened PackedBits

  datatype Pages = Pages(total: nat, buf: seq<bv8>, free: nat) {
    ghost predicate Valid() {
      total <= 8 * |buf| && total * PAGE_SIZE < U64 && free < U64
    }

    function Bits(): seq<bool>
      requires total <= 8 * |buf|
    {
      Unpack(buf, total)
    }

    /** The state after `allocate`, and the first page of the block it hands out. */
    function Allocate(size: nat): (Pages, Option<nat>)
      requires total <= 8 * |buf|
    {
      var n := PageCount(size);
      if n == 0 then (this, None)
      else
        match FirstFit(Bits(), n, 0)
        case None => (this, None)
        case Some(s) => (Pages(total, SetBits(buf, s, n, true), (free - n) % U64), Some(s))
    }

    predicate CanFree(page: nat, size: nat) {
      page + PageCount(size) <= total <= 8 * |buf|
    }

    /** The state after `free` of a block that starts at `page`. */
    function Free(page: nat, size: nat): Pages
      requires CanFree(page, size)
    {
      var n := PageCount(size);
      Pages(total, SetBits(buf, page, n, false), (free + n) % U64)
    }
  }

  // ----- first fit

  /** The least number of whole pages that hold `size` bytes. */
  ghost predicate IsPagesFor(size: nat, n: nat) {
    n * PAGE_SIZE >= size && (n == 0 || (n - 1) * PAGE_SIZE < size)
  }

  lemma FirstFitUnique(b: seq<bool>, n: nat, s: nat)
    requires n > 0 && FreeRun(b, s, n) && forall t | 0 <= t < s :: !FreeRun(b, t, n)
    ensures FirstFit(b, n, 0) == Some(s)
  {
  }

  /** What the scan knows after i pages: the clear run it is in, and that no earlier run was long enough. */
  ghost predicate Scanned(b: seq<bool>, n: nat, i: nat, run: nat) {
    && run <= i <= |b|
    && FreeRun(b, i - run, run)
    && (run < i ==> b[i - run - 1])
    && (n > 0 ==> run < n && forall t: nat | t + n <= i :: !FreeRun(b, t, n))
  }

  lemma ScanStep(b: seq<bool>, n: nat, i: nat, run: nat)
    requires Scanned(b, n, i, run) && i < |b|
    ensures if b[i] then Scanned(b, n, i + 1, 0)
            else if run + 1 == n then FirstFit(b, n, 0) == Some(i - run)
            else Scanned(b, n, i + 1, run + 1)
  {
    if b[i] {
    } else if run + 1 == n {
      FirstFitUnique(b, n, i - run);
    } else {
      forall t: nat | n > 0 && t + n == i + 1 ensures !FreeRun(b, t, n) {
        assert t <= i - run - 1 < t + n;
      }
    }
  }

  /**
   First fit is exact. For every non-zero request, with n the number of pages it really needs
   (also for the requests so large that the rounding addition wraps), `allocate` answers with
   the lowest page at which n pages in a row were clear, and with null exactly when there is no
   such page; precisely those n bits change.
   */
  lemma AllocateIsExact(p: Pages, size: nat, n: nat)
    requires p.Valid() && 0 < size < U64 && IsPagesFor(size, n)
    ensures var (q, r) := p.Allocate(size);
            && (r.None? <==> forall s: nat :: !FreeRun(p.Bits(), s, n))
            && (r.None? ==> q == p)
            && (r.Some? ==>
                  && FreeRun(p.Bits(), r.value, n)
                  && (forall t: nat | t < r.value :: !FreeRun(p.Bits(), t, n))
                  && q.total == p.total && |q.buf| == |p.buf|
                  && (forall i: nat | i < 8 * |p.buf| ::
                        GetBit(q.buf, i) == (r.value <= i < r.value + n || GetBit(p.buf, i))))
  {
    if size + PAGE_SIZE - 1 >= U64 {
      assert PageCount(size) == 0;
      assert n * PAGE_SIZE >= size > U64 - PAGE_SIZE;
      assert n * PAGE_SIZE >= U64;
      assert forall s: nat :: FreeRun(p.Bits(), s, n) ==> n <= p.total;
    } else {
      assert PageCount(size) == n;
      match FirstFit(p.Bits(), n, 0)
      case None =>
      case Some(s) =>
        forall i: nat | i < 8 * |p.buf|
          ensures GetBit(SetBits(p.buf, s, n, true), i) == (s <= i < s + n || GetBit(p.buf, i))
        {
          SetBitsAt(p.buf, s, n, true, i);
        }
    }
  }

  /** Freeing a block that was just allocated restores every byte of the bitmap and the counter. */
  lemma AllocateThenFree(p: Pages, size: nat)
    requires p.Valid() && p.Allocate(size).1.Some?
    ensures var (q, r) := p.Allocate(size);
            q.CanFree(r.value, size) && q.Free(r.value, size) == p
  {
    var n := PageCount(size);
    var s := p.Allocate(size).1.value;
    assert FreeRun(Unpack(p.buf, 8 * |p.buf|), s, n) by {
      assert forall i: nat | s <= i < s + n :: !p.Bits()[i] && p.Bits()[i] == GetBit(p.buf, i);
    }
    MarkThenUnmark(p.buf, s, n);
  }

  // ----- whole runs

  /** The allocator together with the blocks its callers hold: first page and requested size. */
  datatype World = World(pages: Pages, live: map<nat, nat>)

  /** `Release` stands for a well-formed free: a live block, with the size it was requested with. */
  datatype Op = Request(size: nat) | Release(page: nat)

  ghost predicate InBlock(live: map<nat, nat>, s: nat, i: nat) {
    s in live && s <= i < s + PageCount(live[s])
  }

  /** The set bits are exactly the union of the live page ranges, which are not empty and pairwise disjoint. */
  ghost predicate Represents(b: seq<bool>, live: map<nat, nat>) {
    && (forall s: nat | s in live :: InBlock(live, s, s))
    && (forall s: nat, i: nat | InBlock(live, s, i) :: i < |b| && b[i])
    && (forall i: nat | i < |b| && b[i] :: exists s :: InBlock(live, s, i))
    && (forall s: nat, t: nat, i: nat | InBlock(live, s, i) && InBlock(live, t, i) :: s == t)
  }

  lemma RequestKeepsRepresents(b: seq<bool>, live: map<nat, nat>, s: nat, size: nat)
    requires Represents(b, live) && PageCount(size) > 0 && FreeRun(b, s, PageCount(size))
    ensures s !in live && Represents(Fill(b, s, PageCount(size), true), live[s := size])
  {
    var n := PageCount(size);
    var c, after := Fill(b, s, n, true), live[s := size];
    FillAt(b, s, n, true);
    assert !b[s];
    assert s in live ==> InBlock(live, s, s);
    forall t: nat, i: nat | InBlock(after, t, i) ensures i < |c| && c[i] && (t == s <==> s <= i < s + n) {
      if t != s { assert InBlock(live, t, i); }
    }
    forall i: nat | i < |c| && c[i] ensures exists t :: InBlock(after, t, i) {
      if s <= i < s + n {
        assert InBlock(after, s, i);
      } else {
        var t :| InBlock(live, t, i);
        assert InBlock(after, t, i);
      }
    }
    forall t: nat, u: nat, i: nat | InBlock(after, t, i) && InBlock(after, u, i) ensures t == u {
      if t != s { assert InBlock(live, t, i) && InBlock(live, u, i); }
    }
  }

  lemma LiveBlockIsUsed(b: seq<bool>, live: map<nat, nat>, page: nat)
    requires Represents(b, live) && page in live
    ensures PageCount(live[page]) > 0 && UsedRun(b, page, PageCount(live[page]))
  {
    var n := PageCount(live[page]);
    assert InBlock(live, page, page);
    assert InBlock(live, page, page + n - 1);
    forall i: nat | page <= i < page + n ensures b[i] { assert InBlock(live, page, i); }
  }

  lemma ReleaseKeepsRepresents(b: seq<bool>, live: map<nat, nat>, page: nat)
    requires Represents(b, live) && page in live && UsedRun(b, page, PageCount(live[page]))
    ensures Represents(Fill(b, page, PageCount(live[page]), false), live - {page})
  {
    var n := PageCount(live[page]);
    var c, after := Fill(b, page, n, false), live - {page};
    FillAt(b, page, n, false);
    forall t: nat, i: nat | InBlock(after, t, i) ensures InBlock(live, t, i) && !(page <= i < page + n) {
      assert InBlock(live, t, i);
      assert page <= i < page + n ==> InBlock(live, page, i);
    }
    forall t: nat | t in after ensures InBlock(after, t, t) { assert InBlock(live, t, t); }
    forall i: nat | i < |c| && c[i] ensures exists t :: InBlock(after, t, i) {
      var t :| InBlock(live, t, i);
      assert InBlock(after, t, i);
    }
  }

  ghost predicate Counted(p: Pages) {
    p.Valid() && p.free == ClearCount(p.Bits(), p.total)
  }

  ghost predicate WellFormed(w: World) {
    Counted(w.pages) && Represents(w.pages.Bits(), w.live)
  }

  lemma MarkingKeepsCounted(p: Pages, s: nat, n: nat, v: bool, free: nat)
    requires Counted(p) && s + n <= p.total
    requires forall i | s <= i < s + n :: p.Bits()[i] != v
    requires free == (if v then p.free - n else p.free + n) % U64
    ensures var q := Pages(p.total, SetBits(p.buf, s, n, v), free);
            Counted(q) && q.Bits() == Fill(p.Bits(), s, n, v)
  {
    var b := p.Bits();
    SetBitsFills(p.buf, s, n, v, p.total);
    FillClearCount(b, s, n, v, p.total);
    NoWrap(if v then p.free - n else p.free + n, ClearCount(Fill(b, s, n, v), p.total));
  }

  lemma {:induction false} ClearCountOfZeros(b: seq<bool>, i: nat)
    requires i <= |b| && forall j | 0 <= j < |b| :: !b[j]
    ensures ClearCount(b, i) == i
  {
    if i == 0 {
    } else {
      ClearCountOfZeros(b, i - 1);
    }
  }

  /** `initialize` on a region of the given size. */
  ghost function Start(memorySize: nat): (w: World)
    requires memorySize < U64
    ensures WellFormed(w)
  {
    var total := memorySize / PAGE_SIZE;
    var w := World(Pages(total, seq((total + 7) / 8, i => 0), total), map[]);
    ClearCountOfZeros(w.pages.Bits(), total);
    w
  }

  ghost function StepRequest(w: World, size: nat): (v: World)
    requires WellFormed(w)
    ensures WellFormed(v)
  {
    var p := w.pages;
    var (q, r) := p.Allocate(size);
    match r
    case None => w
    case Some(s) =>
      MarkingKeepsCounted(p, s, PageCount(size), true, q.free);
      RequestKeepsRepresents(p.Bits(), w.live, s, size);
      World(q, w.live[s := size])
  }

  ghost function StepRelease(w: World, page: nat): (v: World)
    requires WellFormed(w)
    ensures WellFormed(v)
  {
    var p := w.pages;
    if page !in w.live then w
    else
      LiveBlockIsUsed(p.Bits(), w.live, page);
      MarkingKeepsCounted(p, page, PageCount(w.live[page]), false, p.Free(page, w.live[page]).free);
      ReleaseKeepsRepresents(p.Bits(), w.live, page);
      World(p.Free(page, w.live[page]), w.live - {page})
  }

  ghost function Run(w: World, ops: seq<Op>): (v: World)
    requires WellFormed(w)
    ensures WellFormed(v)
    decreases |ops|
  {
    if ops == [] then w
    else
      var v := match ops[0]
               case Request(size) => StepRequest(w, size)
               case Release(page) => StepRelease(w, page);
      Run(v, ops[1..])
  }

  lemma {:induction false} RunKeepsTotal(w: World, ops: seq<Op>)
    requires WellFormed(w)
    ensures Run(w, ops).pages.total == w.pages.total
    decreases |ops|
  {
    if ops == [] {
    } else {
      var v := match ops[0]
               case Request(size) => StepRequest(w, size)
               case Release(page) => StepRelease(w, page);
      RunKeepsTotal(v, ops[1..]);
    }
  }

  /**
   Safety of every run: after any sequence of requests and well-formed releases on a fresh pool,
   a page's bit is set exactly when a live block covers it, live blocks never overlap or leave the
   pool, and the free-page counter is the number of clear bits.
   */
  lemma EveryRunIsSafe(memorySize: nat, ops: seq<Op>)
    requires memorySize < U64
    ensures var w := Run(Start(memorySize), ops);
            && w.pages.total == memorySize / PAGE_SIZE
            && (forall i: nat | i < w.pages.total ::
                  GetBit(w.pages.buf, i) <==> exists s :: InBlock(w.live, s, i))
            && (forall s: nat, t: nat | s in w.live && t in w.live && s < t :: s + PageCount(w.live[s]) <= t)
            && (forall s: nat | s in w.live :: s + PageCount(w.live[s]) <= w.pages.total)
            && w.pages.free == ClearCount(w.pages.Bits(), w.pages.total)
  {
    RunKeepsTotal(Start(memorySize), ops);
    var w := Run(Start(memorySize), ops);
    var b := w.pages.Bits();
    assert forall i: nat | i < |b| :: b[i] == GetBit(w.pages.buf, i);
    forall s: nat | s in w.live ensures s + PageCount(w.live[s]) <= w.pages.total {
      LiveBlockIsUsed(b, w.live, s);
    }
    forall s: nat, t: nat | s in w.live && t in w.live && s < t ensures s + PageCount(w.live[s]) <= t {
      assert InBlock(w.live, t, t);
      assert s + PageCount(w.live[s]) > t ==> InBlock(w.live, s, t);
    }
  }

  lemma FreeCountGain(p: Pages, page: nat, n: nat)
    requires Counted(p) && page + n <= p.total
    ensures Counted(Pages(p.total, SetBits(p.buf, page, n, false), p.free + n)) <==> UsedRun(p.Bits(), page, n)
  {
    ClearingCount(p.Bits(), page, n, p.total);
    var q := Pages(p.total, SetBits(p.buf, page, n, false), p.free + n);
    assert q.Bits() == Fill(p.Bits(), page, n, false) by { SetBitsFills(p.buf, page, n, false, p.total); }
  }

  /**
   `free` does not look at the bits it clears. It keeps the counter right exactly when every page
   of the range was in use, so a double free or a wrong size always shows in the counter.
   */
  lemma FreeKeepsCountExactly(p: Pages, page: nat, size: nat)
    requires Counted(p) && p.CanFree(page, size)
    ensures Counted(p.Free(page, size)) <==> UsedRun(p.Bits(), page, PageCount(size))
  {
    var n := PageCount(size);
    NoWrap(p.free + n, p.free + n);
    FreeCountGain(p, page, n);
  }

  // ----- fragmentation

  /**
   A successful allocation never adds a fragment: it takes the front of a maximal run of clear
   pages, and removes a fragment exactly when it takes the whole run.
   */
  lemma AllocateMovesFragments(p: Pages, size: nat)
    requires p.Valid() && p.Allocate(size).1.Some?
    ensures var (q, r) := p.Allocate(size);
            var n := PageCount(size);
            && r.value + n <= p.total
            && (exists e: nat :: MaximalRun(p.Bits(), r.value, e) && r.value + n <= e)
            && |MaximalRuns(q.Bits())| == |MaximalRuns(p.Bits())| -
                 (if MaximalRun(p.Bits(), r.value, r.value + n) then 1 else 0)
  {
    var b, n, s := p.Bits(), PageCount(size), p.Allocate(size).1.value;
    FirstFitIsRunPrefix(b, n);
    var e := RunEnd(b, s);
    assert e == |b| || b[e];
    assert MaximalRun(b, s, e);
    SetBitsFills(p.buf, s, n, true, p.total);
    FillingMovesRunCount(b, s, n);
  }

  /** Releasing a used range changes the number of fragments by one minus its clear neighbours. */
  lemma FreeMovesFragments(p: Pages, page: nat, size: nat)
    requires p.Valid() && p.CanFree(page, size) && PageCount(size) > 0
    requires UsedRun(p.Bits(), page, PageCount(size))
    ensures |MaximalRuns(p.Free(page, size).Bits())| ==
            |MaximalRuns(p.Bits())| + 1 - ClearNeighbours(p.Bits(), page, PageCount(size))
  {
    SetBitsFills(p.buf, page, PageCount(size), false, p.total);
    ClearingMovesRunCount(p.Bits(), page, PageCount(size));
  }

  // ----- the allocator itself

  class PageAllocator {
    var memoryStart: nat
    var totalPages: nat
    var freePages: nat
    var bitmap: array<bv8>

    ghost predicate Valid()
      reads this, bitmap
    {
      && bitmap.Length == (totalPages + 7) / 8
      && memoryStart + totalPages * PAGE_SIZE <= U64
      && totalPages * PAGE_SIZE < U64
      && freePages < U64
    }

    ghost function View(): (p: Pages)
      requires Valid()
      reads this, bitmap
      ensures p.Valid()
    {
      Pages(totalPages, bitmap[..], freePages)
    }

    constructor ()
      ensures Valid() && View() == Pages(0, [], 0)
    {
      memoryStart, totalPages, freePages := 0, 0, 0;
      bitmap := new bv8[0];
    }

    method Initialize(start: nat, memorySize: nat)
      requires memorySize < U64 && start + memorySize <= U64
      modifies this
      ensures Valid() && memoryStart == start && fresh(bitmap)
      ensures View() == Start(memorySize).pages
    {
      memoryStart := start;
      totalPages := memorySize / PAGE_SIZE;
      freePages := totalPages;
      bitmap := new bv8[(totalPages + 7) / 8](i => 0);
      assert bitmap[..] == seq((totalPages + 7) / 8, i => 0);
    }

    function PageIndex(address: nat): nat
      reads this
    {
      (address - memoryStart) % U64 / PAGE_SIZE
    }

    method SetBitAt(index: nat, value: bool)
      requires Valid() && index < totalPages
      modifies bitmap
      ensures bitmap[..] == SetBit(old(bitmap[..]), index, value)
    {
      bitmap[index / 8] := WithBit(bitmap[index / 8], index % 8, value);
    }

    method SetRange(first: nat, count: nat, value: bool)
      requires Valid() && first + count <= totalPages
      modifies bitmap
      ensures bitmap[..] == SetBits(old(bitmap[..]), first, count, value)
    {
      for j := 0 to count
        invariant bitmap[..] == SetBits(old(bitmap[..]), first, j, value)
      {
        SetBitAt(first + j, value);
      }
    }

    /** The scan for pageCount clear bits in a row. */
    method FindRun(pageCount: nat) returns (start: Option<nat>)
      requires Valid()
      ensures start == if pageCount == 0 then None else FirstFit(View().Bits(), pageCount, 0)
    {
      ghost var b := View().Bits();
      var consecutivePages, startPage := 0, 0;
      for i := 0 to totalPages
        invariant Scanned(b, pageCount, i, consecutivePages)
        invariant consecutivePages > 0 ==> startPage == i - consecutivePages
      {
        ScanStep(b, pageCount, i, consecutivePages);
        var used := GetBit(bitmap[..], i);
        if !used {
          if consecutivePages == 0 { startPage := i; }
          consecutivePages := consecutivePages + 1;
          if consecutivePages == pageCount { return Some(startPage); }
        } else {
          consecutivePages := 0;
        }
      }
      return None;
    }

    /** First fit; the address of the block, or None for a null pointer. */
    method Allocate(size: nat) returns (address: Option<nat>)
      requires Valid() && size < U64
      modifies this`freePages, bitmap
      ensures Valid()
      ensures var (q, r) := old(View()).Allocate(size);
              && View() == q
              && address == match r case None => None case Some(s) => Some(memoryStart + s * PAGE_SIZE)
    {
      var pageCount := PageCount(size);
      var startPage := FindRun(pageCount);
      if startPage.None? { return None; }
      SetRange(startPage.value, pageCount, true);
      freePages := (freePages - pageCount) % U64;
      return Some(memoryStart + startPage.value * PAGE_SIZE);
    }

    /** The caller owns the range: the address and the size lie inside the pool. */
    method Free(address: nat, size: nat)
      requires Valid() && size < U64 && memoryStart <= address < U64
      requires PageIndex(address) + PageCount(size) <= totalPages
      modifies this`freePages, bitmap
      ensures Valid()
      ensures View() == old(View()).Free(PageIndex(address), size)
    {
      var pageCount := PageCount(size);
      var startPage := PageIndex(address);
      SetRange(startPage, pageCount, false);
      freePages := (freePages + pageCount) % U64;
    }

    /** The fragment counter, and its ratio to the free pages (None for a division by zero). */
    method GetFragmentationRatio() returns (fragments: nat, ratio: Option<real>)
      requires Valid()
      ensures fragments == |MaximalRuns(View().Bits())|
      ensures ratio == if freePages == 0 then None else Some(fragments as real / freePages as real)
    {
      fragments := 0;
      var inFragment := false;
      ghost var b := View().Bits();
      for i := 0 to totalPages
        invariant fragments == RunStarts(b, i)
        invariant inFragment <==> i > 0 && !b[i - 1]
      {
        assert b[i] == GetBit(bitmap[..], i);
        if !GetBit(bitmap[..], i) && !inFragment {
          fragments := fragments + 1;
          inFragment := true;
        } else if GetBit(bitmap[..], i) {
          inFragment := false;
        }
      }
      RunStartsCountMaximalRuns(b);
      ratio := if freePages == 0 then None else Some(fragments as real / freePages as real);
    }
  }

  /** `getPageIndex` inverts the addresses that `allocate` hands out. */
  lemma PageIndexInvertsAddress(a: PageAllocator, page: nat)
    requires a.Valid() && page < a.totalPages
    ensures a.PageIndex(a.memoryStart + page * PAGE_SIZE) == page
  {
  }
}
