/** What `vmm_free_pages` does, on mapped ranges and on any range of the window. */
module VmmRelease {
  import opened Arith
  import opened BitRuns
  import opened PageTables
  import opened VmmSpec
  import opened VmmProofs
  import PmmSpec

  /** The window page of an address. */
  function PageOf(virtAddr: nat): nat
    requires virtAddr >= VMM_BASE
  {
    (virtAddr - VMM_BASE) / PAGE_SIZE
  }

  lemma AddrPath(virtAddr: nat, i: nat)
    requires virtAddr >= VMM_BASE
    ensures Path(virtAddr + i * PAGE_SIZE) == WindowPath(PageOf(virtAddr) + i)
  {
    var o, j := virtAddr - VMM_BASE, PageOf(virtAddr) + i;
    SamePathSamePage(virtAddr + i * PAGE_SIZE, VMM_BASE + j * PAGE_SIZE);
    SamePage(o, i, j);
  }

  lemma SamePage(o: nat, i: nat, j: nat)
    requires j == o / PAGE_SIZE + i
    ensures PageNumber(VMM_BASE + o + i * PAGE_SIZE) == PageNumber(VMM_BASE + j * PAGE_SIZE)
  {
    assert (VMM_BASE + o + i * PAGE_SIZE) / PAGE_SIZE == (VMM_BASE + j * PAGE_SIZE) / PAGE_SIZE;
  }

  // ----- one page -----

  ghost predicate LeafPresent(m: Machine, r: Option<Frame>, v: nat) {
    r.Some? && m.frames[r.value][PtIndex(v)].present
  }

  /** A page whose leaf entry is absent: at most page tables are created. */
  lemma SkippedPage(m: Machine, v: nat, j: nat, fixed: set<nat>)
    requires WindowInv(m, fixed) && j < |m.used| && Path(v) == WindowPath(j)
    requires var (m1, r) := PageWalk(m, v); !LeafPresent(m1, r, v)
    ensures var m1 := PageWalk(m, v).0;
            WindowInv(m1, fixed) && SameTranslation(m, m1) && PaidForTables(m, m1) && WindowMap(m, j) == Unmapped
  {
    assert WindowMap(m, j) == Translate(m, Path(v)) && !WindowMap(m, j).Huge?;
    hide Inv, WindowInv, PageWalk, HardwareWalk, TableAt;
    WindowHasInv(m, fixed);
    WalkPreserves(m, v);
    TablesKeepWindow(m, PageWalk(m, v).0, fixed);
    if WindowMap(m, j).Page? {
      WalkOfMapped(m, v);
    }
  }

  lemma WindowHasInv(m: Machine, fixed: set<nat>)
    requires WindowInv(m, fixed)
    ensures Inv(m)
  {
  }

  /** A present leaf entry belongs to a mapped page, and the walk has changed nothing. */
  lemma PresentPage(m: Machine, v: nat, j: nat, fixed: set<nat>)
    requires WindowInv(m, fixed) && j < |m.used| && Path(v) == WindowPath(j)
    requires var (m1, r) := PageWalk(m, v); LeafPresent(m1, r, v)
    ensures var (m1, r) := PageWalk(m, v);
            m1 == m && WindowMap(m, j).Page? && m.frames[r.value][PtIndex(v)].frame == WindowMap(m, j).frame
  {
    assert WindowMap(m, j) == Translate(m, Path(v)) && !WindowMap(m, j).Huge?;
    hide Inv, WindowInv, PageWalk, TableAt;
    WindowHasInv(m, fixed);
    WalkPreserves(m, v);
    var m1 := PageWalk(m, v).0;
    WalkFromPrefix(m1, Path(v), 3);
    assert Translate(m1, Path(v)) == Translate(m, Path(v));
    WalkOfMapped(m, v);
  }

  /** The machine after the page of `v` was unmapped and its frame returned. */
  function Unmap(m: Machine, v: nat, f: nat): Machine {
    var (m2, _) := FreePage(m, v);
    m2.(used := PmmSpec.Free(m2.used, f * PAGE_SIZE, PAGE_SIZE))
  }

  lemma OnePageFreed(used: PageBits, f: nat)
    requires f < |used|
    ensures PmmSpec.Free(used, f * PAGE_SIZE, PAGE_SIZE) == used[f := false]
    ensures UsedSet(used[f := false]) == UsedSet(used) - {f}
  {
    assert f * PAGE_SIZE / PAGE_SIZE == f;
  }

  lemma UnmapInv(m: Machine, v: nat, f: nat)
    requires Inv(m) && Translate(m, Path(v)).Page? && f < |m.used| && f != 0 && !IsTable(m, f)
    ensures var m' := Unmap(m, v, f);
            && Inv(m') && SameExcept(m, m', v) && Translate(m', Path(v)) == Unmapped && Tables(m') == Tables(m)
            && m'.used == m.used[f := false] && UsedSet(m'.used) == UsedSet(m.used) - {f}
            && forall g: nat :: g < FRAMES ==> IsTable(m', g) == IsTable(m, g)
  {
    FreePageRefines(m, v);
    var m2 := FreePage(m, v).0;
    OnePageFreed(m.used, f);
    var u: PageBits := m.used[f := false];
    SameTablesSame(m, m2);
    BitsOnly(m2, u);
    ZeroMarked(m);
    hide Inv, Translate, TableAt, FreePage, IsTable, PathWritable;
    forall g: nat | IsTable(m2, g)
      ensures Taken(u, g)
    {
      TableMarked(m2, g);
    }
    BitsKeepInv(m2, u);
    SameTablesSame(m, m2.(used := u));
  }

  lemma SameTablesSame(m: Machine, m': Machine)
    requires Tables(m) == Tables(m')
    ensures forall g: nat :: g < FRAMES ==> IsTable(m', g) == IsTable(m, g)
  {
    hide IsTable;
    forall g: nat | g < FRAMES
      ensures IsTable(m', g) == IsTable(m, g)
    {
      assert g in Tables(m) <==> g in Tables(m');
    }
  }

  /** Returning the frame of a window page to the physical allocator, after unmapping the page. */
  lemma UnmapOwned(m: Machine, v: nat, j: nat, fixed: set<nat>)
    requires WindowInv(m, fixed) && j < |m.used| && Path(v) == WindowPath(j) && WindowMap(m, j).Page?
    ensures var f := WindowMap(m, j).frame;
            var m' := Unmap(m, v, f);
            && WindowInv(m', fixed) && SameExcept(m, m', PageAddr(j)) && WindowMap(m', j) == Unmapped
            && Tables(m') == Tables(m) && f < |m.used| && |m'.used| == |m.used|
            && UsedSet(m'.used) == UsedSet(m.used) - {f}
            && (forall l: nat :: l < |m.used| && l != j ==> WindowMap(m', l) == WindowMap(m, l))
  {
    var f := WindowMap(m, j).frame;
    var m' := Unmap(m, v, f);
    assert WindowMap(m, j) == Translate(m, Path(v)) && WindowPath(j) == Path(PageAddr(j));
    assert DataFrame(m, fixed, f) && 0 in fixed;
    hide Inv, Translate, FreePage, Path, WindowPath;
    UnmapInv(m, v, f);
    assert SameExcept(m, m', PageAddr(j));
    OthersSame(m, m', j);
    hide WindowMap, Unmap, SameExcept;
    forall l: nat | l < |m.used| && l != j
      ensures !ShareFrame(WindowMap(m, l), WindowMap(m, j))
    {
      Unshared(m, l, j, fixed);
    }
    UnmapWindow(m, m', j, f, fixed);
  }

  lemma UnmapWindow(m: Machine, m': Machine, j: nat, f: nat, fixed: set<nat>)
    requires WindowInv(m, fixed) && Inv(m') && SameRights(m, m')
    requires j < |m.used| && f < |m.used| && m'.used == m.used[f := false] && f !in fixed
    requires |m.used| <= FRAMES && WindowMap(m, j).Page? && WindowMap(m, j).frame == f && WindowMap(m', j) == Unmapped
    requires forall g: nat :: g < FRAMES ==> IsTable(m', g) == IsTable(m, g)
    requires forall l: nat :: l < |m.used| && l != j ==> WindowMap(m', l) == WindowMap(m, l)
    requires forall l: nat :: l < |m.used| && l != j ==> !ShareFrame(WindowMap(m, l), WindowMap(m, j))
    ensures WindowInv(m', fixed)
  {
    hide Inv, WindowMap, IsTable;
    RightsKept(m, m');
    hide WindowWritable, SameRights;
  }

  // ----- the loop -----

  /** One round: the page is skipped with its translation kept, or unmapped and its frame returned. */
  lemma FreeRound(k1: Kernel, v: nat, j: nat, currPage: nat, ok: bool, fixed: set<nat>)
    requires KernelInv(k1, fixed) && j < |k1.rsv| && Path(v) == WindowPath(j)
    ensures var (k2, next, ok2) := ReleaseStep(k1, v, currPage, ok);
            && KernelInv(k2, fixed) && |k2.rsv| == |k1.rsv| && SameExcept(k1.m, k2.m, PageAddr(j))
            && next <= currPage + 1
            && (WindowMap(k1.m, j).Page? ==>
                  && ok2 == ok && next == currPage + 1 && k2.rsv == WriteRange(k1.rsv, currPage, 1, false)
                  && WindowMap(k2.m, j) == Unmapped && Tables(k2.m) == Tables(k1.m)
                  && UsedSet(k2.m.used) == UsedSet(k1.m.used) - {WindowMap(k1.m, j).frame})
            && (!WindowMap(k1.m, j).Page? ==>
                  !ok2 && next == currPage && k2.rsv == k1.rsv && WindowMap(k2.m, j) == Unmapped)
  {
    hide Inv, WindowInv, Translate, PageWalk, FreePage, Path, WindowPath;
    var m := k1.m;
    var (m1, r) := PageWalk(m, v);
    if LeafPresent(m1, r, v) {
      PresentPage(m, v, j, fixed);
      UnmapOwned(m, v, j, fixed);
      MappedFreeSucceeds(m, v, j, fixed);
    } else {
      SkippedPage(m, v, j, fixed);
      SameWindow(m, m1);
    }
  }

  lemma MappedFreeSucceeds(m: Machine, v: nat, j: nat, fixed: set<nat>)
    requires WindowInv(m, fixed) && Path(v) == WindowPath(j) && WindowMap(m, j).Page?
    ensures FreePage(m, v).1
  {
    assert WindowMap(m, j) == Translate(m, Path(v));
    hide Translate, FreePage;
    FreePageRefines(m, v);
  }

  /** How many of the window pages `b .. b + n` are mapped. */
  ghost function MappedCount(m: Machine, b: nat, n: nat): (c: nat)
    ensures c <= n
    ensures c == n <==> MappedPages(m, b, n)
  {
    if n == 0 then 0 else MappedCount(m, b, n - 1) + if WindowMap(m, b + n - 1).Page? then 1 else 0
  }

  /**
   * On any range of the window, mapped or not: ownership is kept and only that range may change.
   * `currPage` advances over mapped pages only, so the bits cleared are the first ones of the range,
   * as many as pages were mapped, wherever in the range these were.
   */
  lemma {:induction false} ReleaseRoundsSafe(k: Kernel, virtAddr: nat, n: nat, fixed: set<nat>)
    requires KernelInv(k, fixed) && virtAddr >= VMM_BASE && PageOf(virtAddr) + n <= |k.rsv|
    ensures var (k', currPage, ok) := ReleaseRounds(k, virtAddr, n);
            var c := MappedCount(k.m, PageOf(virtAddr), n);
            && KernelInv(k', fixed) && |k'.rsv| == |k.rsv| && OnlyWindow(k.m, k'.m, PageOf(virtAddr), n)
            && currPage == PageOf(virtAddr) + c && k'.rsv == WriteRange(k.rsv, PageOf(virtAddr), c, false)
            && ok == (c == n)
  {
    hide WindowInv, Translate, ReleaseStep, WindowMap, SameExcept, OnlyWindow;
    var b := PageOf(virtAddr);
    if n == 0 {
      NothingReleased(k, b);
    } else {
      var (k1, currPage, ok) := ReleaseRounds(k, virtAddr, n - 1);
      ReleaseRoundsSafe(k, virtAddr, n - 1, fixed);
      AddrPath(virtAddr, n - 1);
      FreeRound(k1, virtAddr + (n - 1) * PAGE_SIZE, b + n - 1, currPage, ok, fixed);
      OnlyWindowStep(k.m, k1.m, ReleaseRounds(k, virtAddr, n).0.m, b, n - 1);
      WindowSize(k.m, fixed);
      OnlyWindowKeeps(k.m, k1.m, b, n - 1, b + n - 1);
      OneMoreBit(k.rsv, b, MappedCount(k.m, b, n - 1));
    }
  }

  /** Afterwards every page of the range is unmapped, whether it was mapped before or not. */
  lemma {:induction false} ReleasedAreUnmapped(k: Kernel, virtAddr: nat, n: nat, fixed: set<nat>)
    requires KernelInv(k, fixed) && virtAddr >= VMM_BASE && PageOf(virtAddr) + n <= |k.rsv|
    ensures var k' := ReleaseRounds(k, virtAddr, n).0;
            forall j: nat :: PageOf(virtAddr) <= j < PageOf(virtAddr) + n ==> WindowMap(k'.m, j) == Unmapped
  {
    hide WindowInv, Translate, ReleaseStep, WindowMap, SameExcept, OnlyWindow, MappedCount, PageAddr, WriteRange;
    if n > 0 {
      var b := PageOf(virtAddr);
      ReleasedAreUnmapped(k, virtAddr, n - 1, fixed);
      ReleaseRoundsSafe(k, virtAddr, n - 1, fixed);
      var (k1, currPage, ok) := ReleaseRounds(k, virtAddr, n - 1);
      AddrPath(virtAddr, n - 1);
      FreeRound(k1, virtAddr + (n - 1) * PAGE_SIZE, b + n - 1, currPage, ok, fixed);
      WindowSize(k.m, fixed);
      EarlierPagesSame(k1.m, ReleaseRounds(k, virtAddr, n).0.m, b, n - 1);
    }
  }

  lemma NothingReleased(k: Kernel, b: nat)
    ensures OnlyWindow(k.m, k.m, b, 0) && WriteRange(k.rsv, b, 0, false) == k.rsv
  {
  }

  lemma OneMoreBit(bits: seq<bool>, b: nat, c: nat)
    ensures WriteRange(WriteRange(bits, b, c, false), b + c, 1, false) == WriteRange(bits, b, c + 1, false)
  {
  }

  /**
   * `vmm_free_pages` leaves every page of the range unmapped. It reports success exactly when every page was mapped;
   * and it clears the bits of the range, and no others, exactly when those behind the first ones, as many as pages
   * were mapped, were clear before.
   */
  lemma FreeClearsRangeIff(k: Kernel, virtAddr: nat, byteAmount: nat, fixed: set<nat>)
    requires KernelInv(k, fixed) && virtAddr >= VMM_BASE
    requires PageOf(virtAddr) + DivideRoundUp(byteAmount, PAGE_SIZE) <= |k.rsv|
    ensures var b, n := PageOf(virtAddr), DivideRoundUp(byteAmount, PAGE_SIZE);
            var (k', ok) := Free(k, virtAddr, byteAmount);
            && (ok <==> MappedPages(k.m, b, n))
            && (forall j: nat :: b <= j < b + n ==> WindowMap(k'.m, j) == Unmapped)
            && (k'.rsv == WriteRange(k.rsv, b, n, false) <==>
                  forall j :: b + MappedCount(k.m, b, n) <= j < b + n ==> !k.rsv[j])
  {
    hide WindowInv, WindowMap, ReleaseRounds, MappedPages, MappedCount, OnlyWindow;
    var b, n := PageOf(virtAddr), DivideRoundUp(byteAmount, PAGE_SIZE);
    ReleaseRoundsSafe(k, virtAddr, n, fixed);
    ReleasedAreUnmapped(k, virtAddr, n, fixed);
    ClearedBoth(k.rsv, b, MappedCount(k.m, b, n), n);
  }

  lemma ClearedBoth(bits: seq<bool>, b: nat, c: nat, n: nat)
    requires c <= n && b + n <= |bits|
    ensures WriteRange(bits, b, c, false) == WriteRange(bits, b, n, false)
            <==> forall j :: b + c <= j < b + n ==> !bits[j]
  {
    if j :| b + c <= j < b + n && bits[j] {
      assert WriteRange(bits, b, c, false)[j] && !WriteRange(bits, b, n, false)[j];
    } else {
      assert WriteRange(bits, b, c, false) == WriteRange(bits, b, n, false);
    }
  }

  /** What freeing a range that is mapped throughout does. */
  ghost predicate Freed(k: Kernel, k': Kernel, b: nat, n: nat) {
    && k'.rsv == WriteRange(k.rsv, b, n, false)
    && (forall j: nat :: b <= j < b + n ==> WindowMap(k'.m, j) == Unmapped)
    && OnlyWindow(k.m, k'.m, b, n)
    && Tables(k'.m) == Tables(k.m)
    && UsedSet(k'.m.used) == UsedSet(k.m.used) - FramesOf(k.m, b, n)
  }

  lemma {:induction false} ReleaseRoundsMapped(k: Kernel, virtAddr: nat, n: nat, fixed: set<nat>)
    requires KernelInv(k, fixed) && virtAddr >= VMM_BASE && PageOf(virtAddr) + n <= |k.rsv|
    requires MappedPages(k.m, PageOf(virtAddr), n)
    ensures var (k', currPage, ok) := ReleaseRounds(k, virtAddr, n);
            ok && currPage == PageOf(virtAddr) + n && Freed(k, k', PageOf(virtAddr), n)
  {
    hide WindowInv, Translate, ReleaseStep, WindowMap, Freed, SameExcept, Tables, UsedSet, OnlyWindow, WriteRange,
      MappedCount;
    var b := PageOf(virtAddr);
    if n == 0 {
      FreedNothing(k, b);
    } else {
      var (k1, currPage, ok) := ReleaseRounds(k, virtAddr, n - 1);
      ReleaseRoundsSafe(k, virtAddr, n - 1, fixed);
      ReleaseRoundsMapped(k, virtAddr, n - 1, fixed);
      WindowSize(k.m, fixed);
      OnlyWindowKeeps(k.m, k1.m, b, n - 1, b + n - 1);
      AddrPath(virtAddr, n - 1);
      FreeRound(k1, virtAddr + (n - 1) * PAGE_SIZE, b + n - 1, currPage, ok, fixed);
      FreedStep(k, k1, ReleaseRounds(k, virtAddr, n).0, b, n - 1);
    }
  }

  lemma FreedNothing(k: Kernel, b: nat)
    ensures Freed(k, k, b, 0)
  {
  }

  lemma FreedStep(k: Kernel, k1: Kernel, k2: Kernel, b: nat, n: nat)
    requires Freed(k, k1, b, n) && b + n < WINDOW_PAGES && SameExcept(k1.m, k2.m, PageAddr(b + n))
    requires k2.rsv == WriteRange(k1.rsv, b + n, 1, false) && WindowMap(k2.m, b + n) == Unmapped
             && Tables(k2.m) == Tables(k1.m)
    requires WindowMap(k.m, b + n).Page? && UsedSet(k2.m.used) == UsedSet(k1.m.used) - {WindowMap(k.m, b + n).frame}
    ensures Freed(k, k2, b, n + 1)
  {
    hide UsedSet, Tables, WindowMap, OnlyWindow, SameExcept, PageAddr, WriteRange;
    OnlyWindowStep(k.m, k1.m, k2.m, b, n);
    EarlierPagesSame(k1.m, k2.m, b, n);
    OneMoreBit(k.rsv, b, n);
    LessOneFrame(UsedSet(k.m.used), FramesOf(k.m, b, n), WindowMap(k.m, b + n).frame);
  }

  lemma LessOneFrame(used: set<nat>, frames: set<nat>, f: nat)
    ensures used - (frames + {f}) == used - frames - {f}
  {
  }

  /** `vmm_free_pages` on a range that is mapped throughout. */
  lemma FreeOutcome(k: Kernel, virtAddr: nat, byteAmount: nat, fixed: set<nat>)
    requires KernelInv(k, fixed) && virtAddr >= VMM_BASE
    requires PageOf(virtAddr) + DivideRoundUp(byteAmount, PAGE_SIZE) <= |k.rsv|
    requires MappedPages(k.m, PageOf(virtAddr), DivideRoundUp(byteAmount, PAGE_SIZE))
    ensures var (k', ok) := Free(k, virtAddr, byteAmount);
            ok && KernelInv(k', fixed) && Freed(k, k', PageOf(virtAddr), DivideRoundUp(byteAmount, PAGE_SIZE))
  {
    hide WindowInv, WindowMap, Freed, OnlyWindow;
    ReleaseRoundsSafe(k, virtAddr, DivideRoundUp(byteAmount, PAGE_SIZE), fixed);
    ReleaseRoundsMapped(k, virtAddr, DivideRoundUp(byteAmount, PAGE_SIZE), fixed);
  }

  /**
   * Conservation: a successful `vmm_malloc_pages` followed by `vmm_free_pages` of the result clears
   * the bits again, leaves the range unmapped and every other translation as it was, and of the
   * physical pages exactly those of the new page tables stay in use.
   */
  lemma MallocThenFree(k: Kernel, byteAmount: nat, fixed: set<nat>)
    requires KernelInv(k, fixed) && Malloc(k, byteAmount).1 != 0
    ensures var n := DivideRoundUp(byteAmount, PAGE_SIZE);
            var (k1, addr) := Malloc(k, byteAmount);
            addr >= VMM_BASE &&
            var (k2, ok) := Free(k1, addr, byteAmount);
            && ok && k2.rsv == k.rsv && KernelInv(k2, fixed)
            && OnlyWindow(k.m, k2.m, PageOf(addr), n)
            && (forall j: nat :: PageOf(addr) <= j < PageOf(addr) + n ==> WindowMap(k2.m, j) == Unmapped)
            && Tables(k.m) <= Tables(k2.m)
            && UsedSet(k2.m.used) == UsedSet(k.m.used) + (Tables(k2.m) - Tables(k.m))
            && FreeCount(k.m.used) - FreeCount(k2.m.used) == |Tables(k2.m) - Tables(k.m)|
  {
    hide WindowInv, Translate, WindowMap, OnlyWindow, Tables, UsedSet, Malloc, Free, FramesOf, FirstRun;
    var n := DivideRoundUp(byteAmount, PAGE_SIZE);
    MallocOutcome(k, byteAmount, fixed);
    var (k1, addr) := Malloc(k, byteAmount);
    var b := FirstRun(k.rsv, n).value;
    assert PageOf(addr) == b;
    BackAgain(k.rsv, b, n);
    WritableAreMapped(k1.m, b, n);
    FreeOutcome(k1, addr, byteAmount, fixed);
    var k2 := Free(k1, addr, byteAmount).0;
    OnlyWindowTwice(k.m, k1.m, k2.m, b, n);
    Balance(k.m, k1.m, k2.m, FramesOf(k1.m, b, n));
  }

  lemma OnlyWindowTwice(m: Machine, m1: Machine, m2: Machine, b: nat, n: nat)
    requires OnlyWindow(m, m1, b, n) && OnlyWindow(m1, m2, b, n)
    ensures OnlyWindow(m, m2, b, n)
  {
    hide Translate;
  }

  lemma Balance(m: Machine, m1: Machine, m2: Machine, data: set<nat>)
    requires PaidFor(m, m1, data) && Tables(m2) == Tables(m1)
    requires |m2.used| == |m.used| && UsedSet(m2.used) == UsedSet(m1.used) - data
    ensures UsedSet(m2.used) == UsedSet(m.used) + (Tables(m2) - Tables(m))
    ensures FreeCount(m.used) - FreeCount(m2.used) == |Tables(m2) - Tables(m)|
  {
    hide Tables, UsedSet;
    var created := Tables(m2) - Tables(m);
    assert UsedSet(m2.used) == UsedSet(m.used) + created;
    assert |UsedSet(m2.used)| == |UsedSet(m.used)| + |created|;
  }
}
