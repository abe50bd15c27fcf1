/** paging.cpp and vmm.cpp in their own form: globals updated in place, over the packed bitmaps. */
module KernelMemory {
  import opened Arith
  import opened BitRuns
  import opened PackedBitmap
  import opened Pmm
  import opened PageTables
  import opened VmmSpec
  import opened VmmProofs
  import opened VmmRelease
  import VmmBoot

  class AddressSpace {
    const root: Frame            // CR3
    const pmm: PageAllocator
    const vmm: Bitmap            // vmm_bitmap
    var frames: Memory           // physical memory, read as page tables

    ghost predicate Valid()
      reads this, pmm, pmm.bitmap, vmm
    {
      && pmm.Valid() && vmm.Valid()
      && vmm != pmm.bitmap && vmm.bytes != pmm.bitmap.bytes
      && vmm.count == pmm.bitmap.count <= FRAMES
    }

    ghost function Abs(): Machine
      requires Valid()
      reads this, pmm, pmm.bitmap, pmm.bitmap.bytes, vmm
    {
      Machine(root, frames, pmm.Used())
    }

    ghost function State(): Kernel
      requires Valid()
      reads this, pmm, pmm.bitmap, pmm.bitmap.bytes, vmm, vmm.bytes
    {
      Kernel(Abs(), vmm.Bits())
    }

    /** The globals, with a `vmm_bitmap` of as many bits as there are physical pages in storage of its own. */
    constructor (root: Frame, pmm: PageAllocator, frames: Memory, storage: array<bv8>)
      requires pmm.Valid() && pmm.bitmap.count <= FRAMES && storage != pmm.bitmap.bytes
      requires pmm.bitmap.count <= 8 * storage.Length
      ensures Valid() && this.root == root && this.pmm == pmm && this.frames == frames
      ensures fresh(vmm) && vmm.bytes == storage
    {
      this.root, this.pmm, this.frames := root, pmm, frames;
      this.vmm := new Bitmap(storage, pmm.bitmap.count);
    }

    /** `init_vmm`; null for its failures. The storage stands for the memory at the address that the allocator gives. */
    static method InitVmm(root: Frame, pmm: PageAllocator, frames: Memory) returns (space: AddressSpace?)
      requires pmm.Valid() && pmm.bitmap.count <= FRAMES
      modifies pmm.bitmap.bytes
      ensures pmm.Valid()
      ensures var (k, addr) := VmmBoot.InitVmm(Machine(root, frames, old(pmm.Used())));
              && (space == null <==> addr.None?) && pmm.Used() == k.m.used
              && (space != null ==> fresh(space) && space.Valid() && space.pmm == pmm && space.State() == k)
    {
      ghost var before := pmm.Used();
      if pmm.bitmap.count == 0 {
        return null;
      }
      var size := DivideRoundUp(pmm.bitmap.count, 8);
      var addr := pmm.Malloc(size);
      if addr.None? {
        return null;
      }
      BitmapSize(pmm.bitmap.count);
      var storage := new bv8[size];
      space := new AddressSpace(root, pmm, frames, storage);
      space.vmm.Clear();
      assert space.vmm.Bits() == seq(pmm.bitmap.count, _ => false);
    }

    /** `get_or_create_next_table` */
    method GetOrCreateNextTable(prevTable: Frame, idx: Index) returns (table: Frame)
      requires Valid()
      modifies this, pmm.bitmap.bytes
      ensures Valid() && (Abs(), table) == PageTables.GetOrCreateNextTable(old(Abs()), prevTable, idx)
    {
      if frames[prevTable][idx].present {
        return frames[prevTable][idx].frame;
      }
      FreshPage(pmm.Used());
      var addr := pmm.Malloc(PAGE_SIZE);
      if addr.None? {
        return 0;
      }
      var f := addr.value / PAGE_SIZE;
      frames := frames[f := ClearedTable()];
      var linked := frames[prevTable][idx].(present := true, writable := true, frame := f);
      frames := frames[prevTable := frames[prevTable][idx := linked]];
      table := f;
    }

    /** `page_walk` */
    method PageWalk(virtualAddress: nat) returns (table: Option<Frame>)
      requires Valid()
      modifies this, pmm.bitmap.bytes
      ensures Valid() && (Abs(), table) == PageTables.PageWalk(old(Abs()), virtualAddress)
    {
      var next := GetOrCreateNextTable(root, Pml4Index(virtualAddress));
      if next == 0 {
        return None;
      }
      next := GetOrCreateNextTable(next, PdptIndex(virtualAddress));
      if next == 0 {
        return None;
      }
      next := GetOrCreateNextTable(next, PdIndex(virtualAddress));
      if next == 0 {
        return None;
      }
      table := Some(next);
    }

    /** `map_page` */
    method MapPage(virtualAddress: nat, physicalAddress: nat, flags: Flags) returns (success: bool)
      requires Valid()
      modifies this, pmm.bitmap.bytes
      ensures Valid() && (Abs(), success) == PageTables.MapPage(old(Abs()), virtualAddress, physicalAddress, flags)
    {
      hide PageTables.PageWalk;
      var table := PageWalk(virtualAddress);
      if table.None? {
        return false;
      }
      var t, i := table.value, PtIndex(virtualAddress);
      ghost var m := Abs();
      ghost var e := m.frames[t][i];
      SetEntry(t, i, frames[t][i].(present := true));
      SetEntry(t, i, frames[t][i].(writable := flags.write));
      SetTwice(m, t, i, e.(present := true), e.(present := true, writable := flags.write));
      SetEntry(t, i, frames[t][i].(cacheOff := flags.cacheDisable));
      SetTwice(m, t, i, e.(present := true, writable := flags.write),
               e.(present := true, writable := flags.write, cacheOff := flags.cacheDisable));
      SetEntry(t, i, frames[t][i].(frame := physicalAddress / PAGE_SIZE % FRAMES));
      SetTwice(m, t, i, e.(present := true, writable := flags.write, cacheOff := flags.cacheDisable),
               e.(present := true, writable := flags.write, cacheOff := flags.cacheDisable,
                  frame := physicalAddress / PAGE_SIZE % FRAMES));
      success := true;
    }

    /** A store to one entry of a table. */
    method SetEntry(t: Frame, i: Index, e: Entry)
      requires Valid()
      modifies this`frames
      ensures Valid() && Abs() == PageTables.SetEntry(old(Abs()), t, i, e)
    {
      frames := frames[t := frames[t][i := e]];
    }

    /** `map_pages` */
    method MapPages(virtualAddress: nat, physicalAddress: nat, flags: Flags, requiredSize: nat) returns (success: bool)
      requires Valid()
      modifies this, pmm.bitmap.bytes
      ensures Valid()
      ensures (Abs(), success) == PageTables.MapPages(old(Abs()), virtualAddress, physicalAddress, flags, requiredSize)
    {
      hide PageTables.MapPage, Unpack;
      var requiredPages := DivideRoundUp(requiredSize, PAGE_SIZE);
      success := true;
      for i := 0 to requiredPages
        invariant Valid()
        invariant (Abs(), success) == MapRounds(old(Abs()), virtualAddress, physicalAddress, flags, i)
      {
        var addressOffset := i * PAGE_SIZE;
        var mapped := MapPage(virtualAddress + addressOffset, physicalAddress + addressOffset, flags);
        if !mapped {
          success := false;
        }
      }
    }

    /** `free_page` */
    method FreePage(virtualAddress: nat) returns (success: bool)
      requires Valid()
      modifies this, pmm.bitmap.bytes
      ensures Valid() && (Abs(), success) == PageTables.FreePage(old(Abs()), virtualAddress)
    {
      hide PageTables.PageWalk;
      var table := PageWalk(virtualAddress);
      if table.None? {
        return false;
      }
      SetEntry(table.value, PtIndex(virtualAddress), ZERO);
      success := true;
    }

    /** `free_pages` */
    method FreePages(virtualAddress: nat, requiredSize: nat) returns (success: bool)
      requires Valid()
      modifies this, pmm.bitmap.bytes
      ensures Valid() && (Abs(), success) == PageTables.FreePages(old(Abs()), virtualAddress, requiredSize)
    {
      hide PageTables.FreePage, Unpack;
      var requiredPages := DivideRoundUp(requiredSize, PAGE_SIZE);
      success := true;
      for i := 0 to requiredPages
        invariant Valid()
        invariant (Abs(), success) == FreeRounds(old(Abs()), virtualAddress, i)
      {
        var freed := FreePage(virtualAddress + i * PAGE_SIZE);
        if !freed {
          success := false;
        }
      }
    }

    /** `vmm_malloc_pages` */
    method VmmMallocPages(byteAmount: nat) returns (addr: nat)
      requires Valid()
      modifies this, pmm.bitmap.bytes, vmm.bytes
      ensures Valid() && (State(), addr) == VmmSpec.Malloc(old(State()), byteAmount)
    {
      hide PageTables.MapPage, Unpack, FindRun, IsFreeRun;
      var reqPages := DivideRoundUp(byteAmount, PAGE_SIZE);
      var begin, success := vmm.FindFreeRange(reqPages);
      if !success {
        return 0;
      }
      vmm.WriteBitsInRangeFrom(reqPages, begin, true);
      ghost var rsv := vmm.Bits();
      for i := 0 to reqPages
        invariant Valid() && vmm.Bits() == rsv
        invariant (Abs(), Done(success)) == FillRounds(old(Abs()), begin, i)
      {
        var currVirtAddr := (begin + i) * PAGE_SIZE + VMM_BASE;
        assert currVirtAddr == PageAddr(begin + i);
        ghost var m1 := Abs();
        var currPhysAddr := pmm.Malloc(PAGE_SIZE);
        if currPhysAddr.None? {
          assert FillRounds(old(Abs()), begin, i + 1) == (m1, Exhausted) && Abs() == m1;
          OutOfPages(old(Abs()), begin, i + 1, reqPages);
          vmm.WriteBitsInRangeFrom(reqPages, begin, false);
          return 0;
        }
        var mapped := MapPage(currVirtAddr, currPhysAddr.value, WRITABLE);
        if !mapped {
          success := false;
        }
      }
      if !success {
        return 0;
      }
      addr := begin * PAGE_SIZE + VMM_BASE;
    }

    /** `vmm_free_pages`; the address lies in the window. */
    method VmmFreePages(virtAddr: nat, byteAmount: nat, ghost fixed: set<nat>) returns (success: bool)
      requires Valid() && KernelInv(State(), fixed) && virtAddr >= VMM_BASE
      requires PageOf(virtAddr) + DivideRoundUp(byteAmount, PAGE_SIZE) <= vmm.count
      modifies this, pmm.bitmap.bytes, vmm.bytes
      ensures Valid() && (State(), success) == VmmSpec.Free(old(State()), virtAddr, byteAmount)
    {
      hide Unpack, ReleaseStep, WindowInv, Path, WindowPath, WindowMap, OnlyWindow;
      var reqPages := DivideRoundUp(byteAmount, PAGE_SIZE);
      var currPage := (virtAddr - VMM_BASE) / PAGE_SIZE;
      success := true;
      ghost var k := State();
      for i := 0 to reqPages
        invariant Valid()
        invariant (State(), currPage, success) == ReleaseRounds(k, virtAddr, i)
      {
        ReleaseRoundsSafe(k, virtAddr, i, fixed);
        AddrPath(virtAddr, i);
        currPage, success := VmmFreeOne(virtAddr + i * PAGE_SIZE, currPage, success, PageOf(virtAddr) + i, fixed);
      }
    }

    /** The body of the loop in `vmm_free_pages`. */
    method VmmFreeOne(currVirtAddr: nat, currPage: nat, success: bool, ghost page: nat, ghost fixed: set<nat>)
      returns (nextPage: nat, stillOk: bool)
      requires Valid() && KernelInv(State(), fixed) && currPage < vmm.count && page < vmm.count
      requires Path(currVirtAddr) == WindowPath(page)
      modifies this, pmm.bitmap.bytes, vmm.bytes
      ensures Valid() && (State(), nextPage, stillOk) == ReleaseStep(old(State()), currVirtAddr, currPage, success)
    {
      hide WindowInv, PageTables.PageWalk, PageTables.FreePage, WindowPath, Path, WindowMap;
      ghost var m := Abs();
      var table := PageWalk(currVirtAddr);
      if table.None? || !frames[table.value][PtIndex(currVirtAddr)].present {
        return currPage, false;
      }
      FrameInRange(m, currVirtAddr, page, fixed);
      vmm.Write(currPage, false);
      var physAddr := frames[table.value][PtIndex(currVirtAddr)].frame * PAGE_SIZE;
      var freed := FreePage(currVirtAddr);
      pmm.Free(physAddr, PAGE_SIZE);
      nextPage, stillOk := currPage + 1, success && freed;
      assert vmm.Bits() == WriteRange(old(vmm.Bits()), currPage, 1, false);
    }
  }

  /** A bit for each page fits the bytes that `init_vmm` asks for. */
  lemma BitmapSize(count: nat)
    requires count <= FRAMES
    ensures count <= 8 * DivideRoundUp(count, 8)
  {
    DivideRoundUpIsCeiling(count, 8);
  }

  lemma SetTwice(m: Machine, t: Frame, i: Index, e: Entry, e': Entry)
    ensures PageTables.SetEntry(PageTables.SetEntry(m, t, i, e), t, i, e') == PageTables.SetEntry(m, t, i, e')
    ensures PageTables.SetEntry(m, t, i, e).frames[t][i] == e
  {
    assert m.frames[t][i := e][i := e'] == m.frames[t][i := e'];
  }

  lemma FrameInRange(m: Machine, v: nat, j: nat, fixed: set<nat>)
    requires WindowInv(m, fixed) && j < |m.used| && Path(v) == WindowPath(j)
    requires var (m1, r) := PageTables.PageWalk(m, v); LeafPresent(m1, r, v)
    ensures var (m1, r) := PageTables.PageWalk(m, v);
            && m1.frames[r.value][PtIndex(v)].frame < |m.used|
            && m1.frames[r.value][PtIndex(v)].frame * PAGE_SIZE / PAGE_SIZE == m1.frames[r.value][PtIndex(v)].frame
  {
    hide PageTables.PageWalk, Path, WindowPath, Translate;
    PresentPage(m, v, j, fixed);
    assert DataFrame(m, fixed, WindowMap(m, j).frame);
  }

  lemma {:induction false} OutOfPages(m: Machine, b: nat, i: nat, n: nat)
    requires i <= n && FillRounds(m, b, i).1.Exhausted?
    ensures FillRounds(m, b, n) == FillRounds(m, b, i)
    decreases n - i
  {
    if i < n {
      OutOfPages(m, b, i, n - 1);
    }
  }
}
