/** The physical page allocator as a function of its page bits, and what every run of it keeps. */
module PmmSpec {
  import opened Arith
  import opened BitRuns

  /** `pmm_malloc`: the lowest free run of enough pages, as a physical address; `None` is `PMM_MALLOC_FAILED`. */
  function Malloc(used: seq<bool>, byteAmount: nat): (seq<bool>, Option<nat>) {
    var n := DivideRoundUp(byteAmount, PAGE_SIZE);
    match FirstRun(used, n)
    case None => (used, None)
    case Some(p) => (WriteRange(used, p, n, true), Some(p * PAGE_SIZE))
  }

  /** `pmm_free` */
  function Free(used: seq<bool>, addr: nat, byteAmount: nat): seq<bool> {
    WriteRange(used, addr / PAGE_SIZE, DivideRoundUp(byteAmount, PAGE_SIZE), false)
  }

  /** Freeing what was just allocated restores every bit, and the cost in between is exactly the page count. */
  lemma MallocThenFree(used: seq<bool>, byteAmount: nat)
    requires Malloc(used, byteAmount).1.Some?
    ensures var (taken, r) := Malloc(used, byteAmount);
            && r.value % PAGE_SIZE == 0
            && Free(taken, r.value, byteAmount) == used
            && FreeCount(taken) + DivideRoundUp(byteAmount, PAGE_SIZE) == FreeCount(used)
  {
    var n := DivideRoundUp(byteAmount, PAGE_SIZE);
    var p := FirstRun(used, n).value;
    TakeAndReturn(used, p, n);
    assert p * PAGE_SIZE / PAGE_SIZE == p;
  }

  /**
   * `pmm_malloc` of `n` pages gives a run of free pages, marked from then on, and nothing else changes. No free run of
   * that length starts below it, so that it fails, changing nothing, exactly when there is none.
   */
  lemma MallocGivesLowest(used: seq<bool>, byteAmount: nat, n: nat, p: nat)
    requires IsCeiling(byteAmount, PAGE_SIZE, n) && n < 0x100_0000_0000
    ensures var (taken, r) := Malloc(used, byteAmount);
            && |taken| == |used|
            && (r.None? ==> taken == used)
            && (r.Some? ==>
                  && n > 0 && r.value % PAGE_SIZE == 0 && r.value / PAGE_SIZE + n <= |used|
                  && (forall i :: r.value / PAGE_SIZE <= i < r.value / PAGE_SIZE + n ==> !used[i])
                  && (forall i :: 0 <= i < |used| ==>
                        (taken[i] <==> used[i] || r.value / PAGE_SIZE <= i < r.value / PAGE_SIZE + n)))
            && (n > 0 && p + n <= |used| && (forall i :: p <= i < p + n ==> !used[i]) ==>
                  r.Some? && r.value <= p * PAGE_SIZE)
  {
    SmallCeiling(byteAmount, n);
    FirstRunIsLowest(used, n, p);
    var r := FirstRun(used, n);
    hide FirstRun, DivideRoundUp;
    if r.Some? {
      assert r.value * PAGE_SIZE / PAGE_SIZE == r.value;
    }
  }

  lemma SmallCeiling(byteAmount: nat, n: nat)
    requires IsCeiling(byteAmount, PAGE_SIZE, n) && n < 0x100_0000_0000
    ensures DivideRoundUp(byteAmount, PAGE_SIZE) == n
  {
  }

  /** `pmm_free` clears the bits of the `n` pages from that of `addr`, and no others. */
  lemma FreeClears(used: seq<bool>, addr: nat, byteAmount: nat, n: nat)
    requires IsCeiling(byteAmount, PAGE_SIZE, n) && n < 0x100_0000_0000
    ensures var bits := Free(used, addr, byteAmount);
            && |bits| == |used|
            && forall i :: 0 <= i < |used| ==>
                 (bits[i] <==> used[i] && !(addr - addr % PAGE_SIZE <= i * PAGE_SIZE
                                            && i * PAGE_SIZE + PAGE_SIZE <= addr - addr % PAGE_SIZE + n * PAGE_SIZE))
  {
    SmallCeiling(byteAmount, n);
    hide DivideRoundUp;
    assert addr - addr % PAGE_SIZE == addr / PAGE_SIZE * PAGE_SIZE;
  }

  // ----- runs -----

  datatype Op = Alloc(byteAmount: nat) | Release(startPage: nat)

  /** The bits, and the live ranges as start page -> number of pages. */
  datatype State = State(used: seq<bool>, live: map<nat, nat>)

  ghost predicate Owns(live: map<nat, nat>, st: nat, i: int) {
    st in live && st <= i < st + live[st]
  }

  /** A page is marked used exactly when it was reserved at boot or lies in one live range. */
  ghost predicate Inv(boot: seq<bool>, s: State) {
    && |s.used| == |boot|
    && (forall st :: st in s.live ==> s.live[st] > 0 && st + s.live[st] <= |boot|)
    && (forall i, st :: Owns(s.live, st, i) ==> s.used[i] && !boot[i])
    && (forall i, st, st' :: Owns(s.live, st, i) && Owns(s.live, st', i) ==> st == st')
    && (forall i :: 0 <= i < |boot| ==> (s.used[i] <==> boot[i] || exists st :: Owns(s.live, st, i)))
  }

  function Step(s: State, op: Op): State {
    match op
    case Alloc(bytes) =>
      var (used, r) := Malloc(s.used, bytes);
      if r.None? then s
      else State(used, s.live[r.value / PAGE_SIZE := DivideRoundUp(bytes, PAGE_SIZE)])
    case Release(st) =>
      if st !in s.live then s
      else State(Free(s.used, st * PAGE_SIZE, s.live[st] * PAGE_SIZE), s.live - {st})
  }

  function Run(s: State, ops: seq<Op>): State
    decreases |ops|
  {
    if ops == [] then s else Run(Step(s, ops[0]), ops[1..])
  }

  lemma AllocKeepsInv(boot: seq<bool>, s: State, bytes: nat)
    requires Inv(boot, s)
    ensures Inv(boot, Step(s, Alloc(bytes)))
  {
    var n := DivideRoundUp(bytes, PAGE_SIZE);
    var r := FirstRun(s.used, n);
    if r.Some? {
      var p := r.value;
      assert p * PAGE_SIZE / PAGE_SIZE == p;
      var t := Step(s, Alloc(bytes));
      assert t.live == s.live[p := n];
      forall st | st in s.live
        ensures s.used[st]
      {
        assert Owns(s.live, st, st);
      }
      assert !s.used[p];
      assert forall i, st :: Owns(t.live, st, i) ==> if st == p then !s.used[i] else Owns(s.live, st, i);
      forall i | 0 <= i < |boot|
        ensures t.used[i] <==> boot[i] || exists st :: Owns(t.live, st, i)
      {
        if p <= i < p + n {
          assert Owns(t.live, p, i);
        } else if st :| Owns(s.live, st, i) {
          assert Owns(t.live, st, i);
        }
      }
    }
  }

  lemma ReleaseKeepsInv(boot: seq<bool>, s: State, st: nat)
    requires Inv(boot, s) && |boot| < 0x100_0000_0000
    ensures Inv(boot, Step(s, Release(st)))
  {
    if st in s.live {
      PagesOfBytes(s.live[st]);
      assert st * PAGE_SIZE / PAGE_SIZE == st;
      var t := Step(s, Release(st));
      assert t.used == WriteRange(s.used, st, s.live[st], false);
      assert forall i, x :: Owns(t.live, x, i) ==> Owns(s.live, x, i);
      forall i | 0 <= i < |boot|
        ensures t.used[i] <==> boot[i] || exists x :: Owns(t.live, x, i)
      {
        if st <= i < st + s.live[st] {
          assert Owns(s.live, st, i);
        } else if x :| Owns(s.live, x, i) {
          assert Owns(t.live, x, i);
        }
      }
    }
  }

  /** Over every run, live ranges stay disjoint, fully marked, and off the pages reserved at boot. */
  lemma {:induction false} RunKeepsInv(boot: seq<bool>, s: State, ops: seq<Op>)
    requires Inv(boot, s) && |boot| < 0x100_0000_0000
    ensures Inv(boot, Run(s, ops))
    decreases |ops|
  {
    if ops != [] {
      match ops[0] {
        case Alloc(bytes) => AllocKeepsInv(boot, s, bytes);
        case Release(st) => ReleaseKeepsInv(boot, s, st);
      }
      RunKeepsInv(boot, Step(s, ops[0]), ops[1..]);
    }
  }

  /** When a run has given everything back, the bits are those left by boot. */
  lemma NothingLeaks(boot: seq<bool>, ops: seq<Op>)
    requires |boot| < 0x100_0000_0000
    requires Run(State(boot, map[]), ops).live == map[]
    ensures Run(State(boot, map[]), ops).used == boot
  {
    RunKeepsInv(boot, State(boot, map[]), ops);
  }
}

/** The memory map handed over by the boot loader. */
module MemoryMap {
  import opened Arith

  datatype Region = Region(base: nat, length: nat, usable: bool)

  const MAX_PHYSICAL: nat := 0x10_0000_0000_0000

  ghost predicate Apart(a: Region, b: Region) {
    a.base + a.length <= b.base || b.base + b.length <= a.base
  }

  /** Usable regions are page aligned, disjoint, below 2^52 and do not hold page 0. */
  ghost predicate WellFormed(regions: seq<Region>) {
    && (forall i :: 0 <= i < |regions| && regions[i].usable ==>
          && regions[i].base % PAGE_SIZE == 0 && regions[i].length % PAGE_SIZE == 0
          && regions[i].base >= PAGE_SIZE && regions[i].base + regions[i].length <= MAX_PHYSICAL)
    && (forall i, j :: 0 <= i < j < |regions| && regions[i].usable && regions[j].usable ==>
          Apart(regions[i], regions[j]))
  }

  function PagesOf(r: Region): set<nat> {
    if r.usable then PageRange(r.base / PAGE_SIZE, r.length / PAGE_SIZE) else {}
  }

  function UsablePages(regions: seq<Region>): set<nat> {
    if regions == [] then {} else UsablePages(regions[..|regions| - 1]) + PagesOf(regions[|regions| - 1])
  }

  function TotalUsable(regions: seq<Region>): nat {
    if regions == [] then 0
    else
      var last := regions[|regions| - 1];
      TotalUsable(regions[..|regions| - 1]) + if last.usable then last.length else 0
  }

  /** The highest end of a usable region, 0 when there is none. */
  function HighestEnd(regions: seq<Region>): (h: nat)
    ensures forall i :: 0 <= i < |regions| && regions[i].usable ==> regions[i].base + regions[i].length <= h
    ensures h == 0 || exists i :: 0 <= i < |regions| && regions[i].usable && h == regions[i].base + regions[i].length
  {
    if regions == [] then 0
    else
      var n := |regions| - 1;
      var h := HighestEnd(regions[..n]);
      if regions[n].usable && regions[n].base + regions[n].length > h
      then regions[n].base + regions[n].length
      else
        assert h == 0 || exists i :: 0 <= i < n && regions[i].usable && h == regions[i].base + regions[i].length by {
          if h != 0 {
            var i :| 0 <= i < |regions[..n]| && regions[..n][i].usable
                && h == regions[..n][i].base + regions[..n][i].length;
            assert regions[..n][i] == regions[i];
          }
        }
        h
  }

  lemma HighestBound(regions: seq<Region>)
    requires WellFormed(regions)
    ensures HighestEnd(regions) <= MAX_PHYSICAL && HighestEnd(regions) % PAGE_SIZE == 0
  {
    hide WellFormed;
    var h := HighestEnd(regions);
    if h != 0 {
      var i :| 0 <= i < |regions| && regions[i].usable && h == regions[i].base + regions[i].length;
      EndOfRegion(regions, i);
    }
  }

  lemma EndOfRegion(regions: seq<Region>, i: nat)
    requires WellFormed(regions) && i < |regions| && regions[i].usable
    ensures var r := regions[i]; r.base + r.length <= MAX_PHYSICAL && (r.base + r.length) % PAGE_SIZE == 0
  {
    AlignedSum(regions[i].base, regions[i].length);
  }

  lemma AlignedSum(a: nat, b: nat)
    requires a % PAGE_SIZE == 0 && b % PAGE_SIZE == 0
    ensures (a + b) % PAGE_SIZE == 0
  {
  }

  /** Usable pages lie below the page count, hence the sum of usable lengths cannot wrap. */
  lemma UsablePagesBelow(regions: seq<Region>)
    requires WellFormed(regions)
    ensures UsablePages(regions) <= PageRange(0, HighestEnd(regions) / PAGE_SIZE)
    ensures TotalUsable(regions) <= HighestEnd(regions)
  {
    HighestBound(regions);
    var all := PageRange(0, HighestEnd(regions) / PAGE_SIZE);
    forall p | p in UsablePages(regions)
      ensures p in all
    {
      UsablePagesMember(regions, p);
    }
    UsablePagesSize(regions);
    PageRangeSize(0, HighestEnd(regions) / PAGE_SIZE);
    SubsetSize(UsablePages(regions), all);
  }

  lemma {:induction false} UsablePagesMember(regions: seq<Region>, p: nat)
    ensures p in UsablePages(regions) <==> exists i :: 0 <= i < |regions| && p in PagesOf(regions[i])
  {
    if regions != [] {
      var init := regions[..|regions| - 1];
      UsablePagesMember(init, p);
      if p in UsablePages(init) {
        var i :| 0 <= i < |init| && p in PagesOf(init[i]);
        assert p in PagesOf(regions[i]);
      }
    }
  }

  /** A page is usable exactly when it lies whole in a usable region. */
  lemma UsablePagesAre(regions: seq<Region>, p: nat)
    requires WellFormed(regions)
    ensures p in UsablePages(regions) <==>
              exists i :: 0 <= i < |regions| && regions[i].usable && regions[i].base <= p * PAGE_SIZE
                          && p * PAGE_SIZE + PAGE_SIZE <= regions[i].base + regions[i].length
  {
    UsablePagesMember(regions, p);
    forall i | 0 <= i < |regions| && regions[i].usable
      ensures p in PagesOf(regions[i])
              <==> regions[i].base <= p * PAGE_SIZE
                   && p * PAGE_SIZE + PAGE_SIZE <= regions[i].base + regions[i].length
    {
      PageInside(regions[i].base, regions[i].length, p);
    }
  }

  lemma PageInside(base: nat, length: nat, p: nat)
    requires base % PAGE_SIZE == 0 && length % PAGE_SIZE == 0
    ensures p in PageRange(base / PAGE_SIZE, length / PAGE_SIZE)
       <==> base <= p * PAGE_SIZE && p * PAGE_SIZE + PAGE_SIZE <= base + length
  {
  }

  /** Disjoint page-aligned regions hold exactly `TotalUsable / 4096` pages. */
  lemma {:induction false} UsablePagesSize(regions: seq<Region>)
    requires WellFormed(regions)
    ensures |UsablePages(regions)| * PAGE_SIZE == TotalUsable(regions)
  {
    if regions != [] {
      var n := |regions| - 1;
      var init, last := regions[..n], regions[n];
      UsablePagesSize(init);
      if last.usable {
        PageRangeSize(last.base / PAGE_SIZE, last.length / PAGE_SIZE);
        LastApart(regions);
      }
    }
  }

  lemma LastApart(regions: seq<Region>)
    requires WellFormed(regions) && regions != []
    ensures UsablePages(regions[..|regions| - 1]) !! PagesOf(regions[|regions| - 1])
  {
    var n := |regions| - 1;
    var init, last := regions[..n], regions[n];
    forall p | p in UsablePages(init)
      ensures p !in PagesOf(last)
    {
      UsablePagesMember(init, p);
      var i :| 0 <= i < |init| && p in PagesOf(init[i]);
      if last.usable {
        assert Apart(regions[i], regions[n]);
        RegionsPagesApart(regions[i], last, p);
      }
    }
  }

  lemma RegionsPagesApart(a: Region, b: Region, p: nat)
    requires Apart(a, b) && a.usable && b.usable
    requires a.base % PAGE_SIZE == 0 && a.length % PAGE_SIZE == 0 && b.base % PAGE_SIZE == 0
             && b.length % PAGE_SIZE == 0
    requires p in PagesOf(a)
    ensures p !in PagesOf(b)
  {
  }
}

/** pmm.cpp and pmm_bitmap.cpp: the allocator over the packed bitmap, and its boot sequence. */
module Pmm {
  import opened Arith
  import opened BitRuns
  import opened PackedBitmap
  import opened MemoryMap
  import PmmSpec

  /** `get_memory_regions`: the sum of usable lengths and the highest usable end. */
  method GetMemoryRegions(regions: seq<Region>) returns (totalUsableBytes: nat, highestAddress: nat)
    ensures totalUsableBytes == TotalUsable(regions)
    ensures highestAddress == HighestEnd(regions)
  {
    totalUsableBytes, highestAddress := 0, 0;
    for i := 0 to |regions|
      invariant totalUsableBytes == TotalUsable(regions[..i])
      invariant highestAddress == HighestEnd(regions[..i])
    {
      assert regions[..i + 1][..i] == regions[..i];
      if regions[i].usable {
        totalUsableBytes := totalUsableBytes + regions[i].length;
        var currAddr := regions[i].base + regions[i].length;
        if currAddr > highestAddress {
          highestAddress := currAddr;
        }
      }
    }
    assert regions[..|regions|] == regions;
  }

  /** A byte of eight used pages has every bit set. */
  lemma FullByte(k: nat)
    requires k < 8
    ensures ByteBit(0xFF, k)
  {
    FullByteShift(k as bv3);
  }

  lemma FullByteShift(k: bv3)
    ensures ((0xFF as bv8) >> k) & 1 == 1
  {
  }

  class PageAllocator {
    var bitmap: Bitmap

    ghost predicate Valid()
      reads this, bitmap
    {
      bitmap.Valid()
    }

    ghost function Used(): seq<bool>
      requires Valid()
      reads this, bitmap, bitmap.bytes
    {
      bitmap.Bits()
    }

    /** `pmm_malloc_page_range` */
    method MallocPageRange(page: nat, pageAmount: nat)
      requires Valid() && page + pageAmount <= bitmap.count
      modifies bitmap.bytes
      ensures Valid() && Used() == WriteRange(old(Used()), page, pageAmount, true)
    {
      for i := 0 to pageAmount
        invariant Used() == WriteRange(old(Used()), page, i, true)
      {
        bitmap.Write(page + i, true);
      }
    }

    method Malloc(byteAmount: nat) returns (addr: Option<nat>)
      requires Valid()
      modifies bitmap.bytes
      ensures Valid() && (Used(), addr) == PmmSpec.Malloc(old(Used()), byteAmount)
    {
      var reqPages := DivideRoundUp(byteAmount, PAGE_SIZE);
      var begin, success := bitmap.FindFreeRange(reqPages);
      if !success {
        return None;
      }
      MallocPageRange(begin, reqPages);
      addr := Some(begin * PAGE_SIZE);
    }

    method Free(addr: nat, byteAmount: nat)
      requires Valid() && addr / PAGE_SIZE + DivideRoundUp(byteAmount, PAGE_SIZE) <= bitmap.count
      modifies bitmap.bytes
      ensures Valid() && Used() == PmmSpec.Free(old(Used()), addr, byteAmount)
    {
      var reqPages := DivideRoundUp(byteAmount, PAGE_SIZE);
      var currPage := addr / PAGE_SIZE;
      for i := 0 to reqPages
        invariant currPage == addr / PAGE_SIZE + i
        invariant Used() == WriteRange(old(Used()), addr / PAGE_SIZE, i, false)
      {
        bitmap.Write(currPage, false);
        currPage := currPage + 1;
      }
    }

    /** `get_pmm_page_counts`: the two counters partition the pages. */
    method PageCounts() returns (free: nat, used: nat)
      requires Valid()
      ensures used == |UsedSet(Used())| && free == FreeCount(Used()) && free + used == bitmap.count
    {
      free, used := 0, 0;
      ghost var bits := Used();
      for i := 0 to bitmap.count
        invariant used == |UsedSet(bits[..i])| && free + used == i
      {
        var b := bitmap.Read(i);
        UsedSetSnoc(bits, i);
        if b {
          used := used + 1;
        } else {
          free := free + 1;
        }
      }
      assert bits[..bitmap.count] == bits;
    }

    /** `memory_fill(.., 0xFF, ..)` marks every page used. */
    lemma AllUsed()
      requires Valid() && forall k :: 0 <= k < bitmap.bytes.Length ==> bitmap.bytes[k] == 0xFF
      ensures UsedSet(Used()) == PageRange(0, bitmap.count)
    {
      forall k | 0 <= k < bitmap.count
        ensures Used()[k]
      {
        FullByte(k % 8);
      }
    }

    /** `init_bitmap_data`: clears the pages of every usable region. */
    method InitBitmapData(regions: seq<Region>)
      requires Valid() && WellFormed(regions)
      requires forall i :: 0 <= i < |regions| && regions[i].usable ==>
                 regions[i].base + regions[i].length <= bitmap.count * PAGE_SIZE
      modifies bitmap.bytes
      ensures Valid() && UsedSet(Used()) == UsedSet(old(Used())) - UsablePages(regions)
    {
      for i := 0 to |regions|
        invariant UsedSet(Used()) == UsedSet(old(Used())) - UsablePages(regions[..i])
      {
        assert regions[..i + 1][..i] == regions[..i];
        if regions[i].usable {
          assert DivideRoundUp(regions[i].length, PAGE_SIZE) == regions[i].length / PAGE_SIZE;
          WriteRangeUsedSet(Used(), regions[i].base / PAGE_SIZE, regions[i].length / PAGE_SIZE);
          Free(regions[i].base, regions[i].length);
        }
      }
      assert regions[..|regions|] == regions;
    }

    /** The end of `get_free_location_for_bitmap`: the bitmap's own pages are taken again. */
    method TakeBitmapPages(regions: seq<Region>, base: nat, reqSize: nat)
      requires Valid() && WellFormed(regions) && BitmapFits(regions)
      requires bitmap.count == HighestEnd(regions) / PAGE_SIZE && reqSize == DivideRoundUp(bitmap.count, 8)
      requires base == FirstFit(regions, reqSize)
      requires UsedSet(Used()) == PageRange(0, bitmap.count) - UsablePages(regions)
      modifies bitmap.bytes
      ensures Valid()
      ensures BitmapPages(bitmap.count, base) <= UsablePages(regions)
      ensures forall i :: 0 <= i < bitmap.count ==>
                (!Used()[i] <==> i in UsablePages(regions) && i !in BitmapPages(bitmap.count, base))
      ensures FreeCount(Used()) * PAGE_SIZE ==
              TotalUsable(regions) - |BitmapPages(bitmap.count, base)| * PAGE_SIZE
    {
      UsablePagesBelow(regions);
      OwnPagesUsable(regions, bitmap.count, base);
      var bitmapPages := DivideRoundUp(reqSize, PAGE_SIZE);
      WriteRangeUsedSet(Used(), base / PAGE_SIZE, bitmapPages);
      MallocPageRange(base / PAGE_SIZE, bitmapPages);
      BootCount(regions, bitmap.count, BitmapPages(bitmap.count, base), Used());
    }

    constructor (bitmap: Bitmap)
      requires bitmap.Valid()
      ensures Valid() && this.bitmap == bitmap
    {
      this.bitmap := bitmap;
    }
  }

  /** The page numbers that the bitmap of `count` bits takes when stored at `base`. */
  function BitmapPages(count: nat, base: nat): set<nat> {
    PageRange(base / PAGE_SIZE, DivideRoundUp(DivideRoundUp(count, 8), PAGE_SIZE))
  }

  /** Those are the pages with a byte of the bitmap in them. */
  lemma BitmapPagesAre(count: nat, base: nat, p: nat)
    requires base % PAGE_SIZE == 0 && count <= MAX_PHYSICAL
    ensures p in BitmapPages(count, base) <==> base <= p * PAGE_SIZE < base + (count + 7) / 8
  {
    assert DivideRoundUp(count, 8) == (count + 7) / 8;
    assert DivideRoundUp((count + 7) / 8, PAGE_SIZE) == ((count + 7) / 8 + 4095) / PAGE_SIZE;
  }

  /** Some usable region is large enough for the bitmap, unless there is no usable region at all. */
  ghost predicate BitmapFits(regions: seq<Region>) {
    HighestEnd(regions) > 0 ==>
      exists i :: 0 <= i < |regions| && regions[i].usable &&
                  regions[i].length >= DivideRoundUp(HighestEnd(regions) / PAGE_SIZE, 8)
  }

  /**
   * `get_memory_regions`, `get_free_location_for_bitmap`: the allocator as boot leaves it.
   * A page is free exactly when it lies in a usable region outside the pages that hold the bitmap
   * itself, and the number of free pages follows from the usable bytes.
   */
  method Boot(regions: seq<Region>) returns (pmm: PageAllocator, bitmapPhysBase: nat)
    requires WellFormed(regions) && BitmapFits(regions)
    ensures fresh(pmm) && fresh(pmm.bitmap) && fresh(pmm.bitmap.bytes) && pmm.Valid()
    ensures pmm.bitmap.count == HighestEnd(regions) / PAGE_SIZE
    ensures bitmapPhysBase == FirstFit(regions, DivideRoundUp(pmm.bitmap.count, 8))
    ensures BitmapPages(pmm.bitmap.count, bitmapPhysBase) <= UsablePages(regions)
    ensures forall i :: 0 <= i < pmm.bitmap.count ==>
              (!pmm.Used()[i] <==> i in UsablePages(regions) && i !in BitmapPages(pmm.bitmap.count, bitmapPhysBase))
    ensures FreeCount(pmm.Used()) * PAGE_SIZE ==
            TotalUsable(regions) - |BitmapPages(pmm.bitmap.count, bitmapPhysBase)| * PAGE_SIZE
  {
    var total, highest := GetMemoryRegions(regions);
    var count := highest / PAGE_SIZE;
    var reqSize := DivideRoundUp(count, 8);
    bitmapPhysBase := FindBitmapBase(regions, reqSize);
    pmm := FilledAllocator(regions, count, reqSize);
    HighestBound(regions);
    pmm.InitBitmapData(regions);
    pmm.TakeBitmapPages(regions, bitmapPhysBase, reqSize);
  }

  /** An allocator over `reqSize` fresh bytes, all filled with 0xFF. */
  method FilledAllocator(regions: seq<Region>, count: nat, reqSize: nat) returns (pmm: PageAllocator)
    requires WellFormed(regions) && count == HighestEnd(regions) / PAGE_SIZE && reqSize == DivideRoundUp(count, 8)
    ensures fresh(pmm) && fresh(pmm.bitmap) && fresh(pmm.bitmap.bytes) && pmm.Valid()
    ensures pmm.bitmap.count == count && UsedSet(pmm.Used()) == PageRange(0, count)
  {
    HighestBound(regions);
    var storage := new bv8[reqSize](_ => 0xFF);
    var bitmap := new Bitmap(storage, count);
    pmm := new PageAllocator(bitmap);
    pmm.AllUsed();
  }

  /** The base of the first usable region of at least `reqSize` bytes. */
  method FindBitmapBase(regions: seq<Region>, reqSize: nat) returns (base: nat)
    ensures base == FirstFit(regions, reqSize)
  {
    for i := 0 to |regions|
      invariant FirstFit(regions, reqSize) == FirstFit(regions[i..], reqSize)
    {
      if regions[i].usable {
        if regions[i].length >= reqSize {
          return regions[i].base;
        }
      }
    }
    base := 0;
  }

  function FirstFit(regions: seq<Region>, reqSize: nat): (base: nat)
    ensures base == 0
            || exists i :: 0 <= i < |regions| && regions[i].usable && regions[i].length >= reqSize
                           && base == regions[i].base
    ensures (exists i :: 0 <= i < |regions| && regions[i].usable && regions[i].length >= reqSize) ==>
      exists i :: 0 <= i < |regions| && regions[i].usable && regions[i].length >= reqSize && base == regions[i].base
  {
    if regions == [] then 0
    else if regions[0].usable && regions[0].length >= reqSize then regions[0].base
    else
      assert forall i :: 0 < i < |regions| ==> regions[1..][i - 1] == regions[i];
      FirstFit(regions[1..], reqSize)
  }

  /** The base of the first usable region that is long enough, and 0 when there is none. */
  lemma {:induction false} FirstFitIsFirst(regions: seq<Region>, reqSize: nat, i: nat)
    requires i <= |regions| && forall k :: 0 <= k < i ==> !regions[k].usable || regions[k].length < reqSize
    requires i < |regions| ==> regions[i].usable && regions[i].length >= reqSize
    ensures FirstFit(regions, reqSize) == if i < |regions| then regions[i].base else 0
    decreases i
  {
    if i > 0 {
      FirstFitIsFirst(regions[1..], reqSize, i - 1);
    }
  }

  lemma BootCount(regions: seq<Region>, count: nat, own: set<nat>, bits: seq<bool>)
    requires WellFormed(regions) && own <= UsablePages(regions) <= PageRange(0, count) && |bits| == count
    requires UsedSet(bits) == PageRange(0, count) - UsablePages(regions) + own
    ensures forall i :: 0 <= i < count ==> (!bits[i] <==> i in UsablePages(regions) && i !in own)
    ensures FreeCount(bits) * PAGE_SIZE == TotalUsable(regions) - |own| * PAGE_SIZE
  {
    var all, usable := PageRange(0, count), UsablePages(regions);
    forall k | 0 <= k < count
      ensures !bits[k] <==> k in usable && k !in own
    {
      assert bits[k] <==> k in UsedSet(bits);
      assert k in all;
    }
    PageRangeSize(0, count);
    assert UsedSet(bits) == all - (usable - own);
    SubsetSize(usable - own, all);
    SubsetSize(own, usable);
    UsablePagesSize(regions);
  }

  lemma OwnPagesUsable(regions: seq<Region>, count: nat, base: nat)
    requires WellFormed(regions) && BitmapFits(regions)
    requires count == HighestEnd(regions) / PAGE_SIZE && base == FirstFit(regions, DivideRoundUp(count, 8))
    ensures BitmapPages(count, base) <= UsablePages(regions)
    ensures base / PAGE_SIZE + DivideRoundUp(DivideRoundUp(count, 8), PAGE_SIZE) <= count
  {
    HighestBound(regions);
    if HighestEnd(regions) > 0 {
      var i := FittingRegion(regions, DivideRoundUp(count, 8));
      RegionBounds(regions, i);
      hide HighestEnd, DivideRoundUp, FirstFit, WellFormed, UsablePages, BitmapFits;
      PagesInside(base, regions[i].length, DivideRoundUp(count, 8), HighestEnd(regions));
      forall p | p in BitmapPages(count, base)
        ensures p in UsablePages(regions)
      {
        UsablePagesMember(regions, p);
        assert p in PagesOf(regions[i]);
      }
    }
  }

  lemma FittingRegion(regions: seq<Region>, req: nat) returns (i: nat)
    requires exists k :: 0 <= k < |regions| && regions[k].usable && regions[k].length >= req
    ensures i < |regions| && regions[i].usable && regions[i].length >= req && FirstFit(regions, req) == regions[i].base
  {
    var base := FirstFit(regions, req);
    hide FirstFit;
    i :| 0 <= i < |regions| && regions[i].usable && regions[i].length >= req && base == regions[i].base;
  }

  lemma RegionBounds(regions: seq<Region>, i: nat)
    requires WellFormed(regions) && i < |regions| && regions[i].usable
    ensures var r := regions[i];
            r.base % PAGE_SIZE == 0 && r.length % PAGE_SIZE == 0 && r.base + r.length <= HighestEnd(regions)
  {
    hide HighestEnd;
  }

  lemma PagesInside(base: nat, length: nat, req: nat, end: nat)
    requires base % PAGE_SIZE == 0 && length % PAGE_SIZE == 0 && req <= length && base + length <= end <= MAX_PHYSICAL
    ensures DivideRoundUp(req, PAGE_SIZE) <= length / PAGE_SIZE
    ensures base / PAGE_SIZE + length / PAGE_SIZE <= end / PAGE_SIZE
  {
  }
}
