/** From boot to the heap: `init_vmm` establishes ownership, and the bytes of live ranges never alias. */
module VmmBoot {
  import opened Arith
  import opened BitRuns
  import opened MemoryMap
  import opened Pmm
  import opened PageTables
  import opened VmmSpec
  import opened VmmProofs
  import opened VmmRelease
  import opened VmmRuns
  import PmmSpec

  const INIT_HEAP_SIZE: nat := 4096 * 1024 * 4

  /** `init_vmm`: pages for the bitmap from the physical allocator, and a cleared bit for each physical page. */
  function InitVmm(m: Machine): (Kernel, Option<nat>) {
    var count := |m.used|;
    if count == 0 then (Kernel(m, []), None)
    else
      var (used, addr) := PmmSpec.Malloc(m.used, DivideRoundUp(count, 8));
      (Kernel(m.(used := used), seq(count, _ => false)), addr)
  }

  /** The frames that the bitmap of the virtual allocator takes. */
  function VmmBitmapPages(m: Machine, addr: nat): set<nat> {
    PageRange(addr / PAGE_SIZE, DivideRoundUp(DivideRoundUp(|m.used|, 8), PAGE_SIZE))
  }

  /**
   * `init_vmm` fails exactly when there are no pages or no run of free pages that holds one bit for each; else it takes
   * the lowest such run, and every bit is clear. The tables are not touched.
   */
  lemma InitVmmOutcome(m: Machine, n: nat, p: nat)
    requires IsCeiling((|m.used| + 7) / 8, PAGE_SIZE, n)
    ensures var (k, addr) := InitVmm(m);
            && k.m.root == m.root && k.m.frames == m.frames && |k.m.used| == |k.rsv| == |m.used|
            && (forall j :: 0 <= j < |k.rsv| ==> !k.rsv[j])
            && (addr.None? ==> k.m == m)
            && (addr.Some? ==>
                  && n > 0 && addr.value % PAGE_SIZE == 0 && addr.value / PAGE_SIZE + n <= |m.used|
                  && (forall i :: addr.value / PAGE_SIZE <= i < addr.value / PAGE_SIZE + n ==> !m.used[i])
                  && (forall i :: 0 <= i < |m.used| ==>
                        (k.m.used[i] <==> m.used[i] || addr.value / PAGE_SIZE <= i < addr.value / PAGE_SIZE + n)))
            && (n > 0 && p + n <= |m.used| && (forall i :: p <= i < p + n ==> !m.used[i]) ==>
                  addr.Some? && addr.value <= p * PAGE_SIZE)
  {
    BytesForBits(|m.used|);
    NoMorePages(|m.used|, n);
    hide PmmSpec.Malloc, DivideRoundUp, IsCeiling;
    PmmSpec.MallocGivesLowest(m.used, (|m.used| + 7) / 8, n, p);
  }

  lemma NoMorePages(count: nat, n: nat)
    requires count <= FRAMES && IsCeiling((count + 7) / 8, PAGE_SIZE, n)
    ensures n < FRAMES && (count == 0 ==> n == 0)
  {
  }

  lemma BytesForBits(count: nat)
    requires count <= FRAMES
    ensures DivideRoundUp(count, 8) == (count + 7) / 8
  {
  }

  /** The bitmap's pages are those with a byte of it in them. */
  lemma VmmBitmapPagesAre(m: Machine, addr: nat, p: nat)
    requires addr % PAGE_SIZE == 0
    ensures p in VmmBitmapPages(m, addr) <==> addr <= p * PAGE_SIZE < addr + (|m.used| + 7) / 8
  {
    BytesForBits(|m.used|);
    Pmm.BitmapPagesAre(|m.used|, addr, p);
  }

  /** Page 0 is in no usable region, so boot leaves it marked. */
  lemma PageZeroReserved(regions: seq<Region>)
    requires WellFormed(regions)
    ensures 0 !in UsablePages(regions)
  {
    UsablePagesMember(regions, 0);
    if i :| 0 <= i < |regions| && 0 in PagesOf(regions[i]) {
      assert regions[i].usable && regions[i].base >= PAGE_SIZE;
    }
  }

  /** Before `init_vmm` the window is empty, and no table above it is linked read-only. */
  ghost predicate WindowEmpty(m: Machine) {
    WindowWritable(m) && forall j: nat :: j < |m.used| ==> WindowMap(m, j) == Unmapped
  }

  /**
   * The assumptions on the boot loader's tables can be met: an empty root table, marked used, is a tree that maps
   * nothing.
   */
  lemma EmptyTreeIsReady(m: Machine)
    requires m.frames[m.root] == ClearedTable() && Taken(m.used, m.root) && Taken(m.used, 0)
    ensures Inv(m) && WindowEmpty(m) && forall q: seq<Index> :: |q| == 4 ==> Translate(m, q) == Unmapped
  {
    forall p: seq<Index> | p != []
      ensures TableAt(m, p) == None
    {
      OnlyRoot(m, p);
    }
  }

  lemma {:induction false} OnlyRoot(m: Machine, p: seq<Index>)
    requires m.frames[m.root] == ClearedTable() && p != []
    ensures TableAt(m, p) == None
    decreases |p|
  {
    if |p| > 1 {
      OnlyRoot(m, p[..|p| - 1]);
    }
  }

  ghost predicate FreePageOf(m: Machine, f: nat) {
    f < |m.used| && !m.used[f] && !IsTable(m, f)
  }

  /** The pages of the new bitmap were free, and are marked now. */
  lemma BitmapPage(m: Machine, f: nat)
    requires Inv(m) && InitVmm(m).1.Some? && f in VmmBitmapPages(m, InitVmm(m).1.value)
    ensures FreePageOf(m, f) && Taken(InitVmm(m).0.m.used, f)
  {
    hide Inv, IsTable;
    var n := DivideRoundUp(DivideRoundUp(|m.used|, 8), PAGE_SIZE);
    var p := FirstRun(m.used, n).value;
    assert InitVmm(m).1.value / PAGE_SIZE == p;
    assert IsFreeRun(m.used, p, n);
    FreeFrameIsNoTable(m, f);
  }

  /** What was marked stays marked. */
  lemma MarkedStaysMarked(m: Machine, f: nat)
    requires Taken(m.used, f)
    ensures Taken(InitVmm(m).0.m.used, f) && |InitVmm(m).0.m.used| == |m.used|
  {
    hide FirstRun;
  }

  lemma OnlyBitsChange(m: Machine)
    ensures var k := InitVmm(m).0; k.m == m.(used := k.m.used) && |k.rsv| == |k.m.used| == |m.used|
  {
    hide FirstRun;
  }

  lemma ReadyForPages(m: Machine)
    requires Inv(m)
    ensures var m' := InitVmm(m).0.m;
            Inv(m') && SameTranslation(m, m') && (forall f: nat :: IsTable(m', f) == IsTable(m, f))
  {
    hide InitVmm, IsTable, Inv, Taken;
    OnlyBitsChange(m);
    var u := InitVmm(m).0.m.used;
    BitsOnly(m, u);
    forall f: nat | IsTable(m, f)
      ensures Taken(u, f)
    {
      TableMarked(m, f);
      MarkedStaysMarked(m, f);
    }
    ZeroMarked(m);
    MarkedStaysMarked(m, 0);
    BitsKeepInv(m, u);
  }

  lemma EmptyWindowInv(m: Machine, fixed: set<nat>)
    requires Inv(m) && WindowEmpty(m) && |m.used| <= WINDOW_PAGES
    requires 0 in fixed && forall f :: f in fixed ==> Taken(m.used, f)
    ensures WindowInv(m, fixed)
  {
    hide Inv, WindowMap, Taken;
  }

  /**
   * On a machine with an empty window, and tables and reserved pages marked, `init_vmm` leaves the kernel ready:
   * ownership holds, with the bitmap's own pages reserved too, and these are neither tables nor reserved before.
   */
  lemma InitVmmEstablishes(m: Machine, fixed: set<nat>)
    requires Inv(m) && WindowEmpty(m) && |m.used| <= WINDOW_PAGES
    requires 0 in fixed && forall f :: f in fixed ==> Taken(m.used, f)
    requires InitVmm(m).1.Some?
    ensures var (k, addr) := InitVmm(m);
            && KernelInv(k, fixed + VmmBitmapPages(m, addr.value))
            && SameTranslation(m, k.m)
            && forall f :: f in VmmBitmapPages(m, addr.value) ==> FreePageOf(m, f) && !IsTable(k.m, f) && f !in fixed
  {
    hide InitVmm, VmmBitmapPages, IsTable, Inv, Taken, WindowMap, WindowInv, SameTranslation, FreePageOf;
    var (k, addr) := InitVmm(m);
    var own := VmmBitmapPages(m, addr.value);
    OnlyBitsChange(m);
    ReadyForPages(m);
    StaysEmpty(m, k.m);
    forall f | f in own
      ensures Taken(k.m.used, f) && FreePageOf(m, f) && !IsTable(k.m, f) && f !in fixed
    {
      BitmapPage(m, f);
      FreeMeans(m, f);
    }
    forall f | f in fixed
      ensures Taken(k.m.used, f)
    {
      MarkedStaysMarked(m, f);
    }
    EmptyWindowInv(k.m, fixed + own);
  }

  lemma StaysEmpty(m: Machine, m': Machine)
    requires WindowEmpty(m) && SameTranslation(m, m') && |m'.used| == |m.used|
    ensures WindowEmpty(m')
  {
    SameWindow(m, m');
    RightsKept(m, m');
    hide WindowMap, WindowWritable;
  }

  lemma FreeMeans(m: Machine, f: nat)
    requires FreePageOf(m, f)
    ensures !IsTable(m, f) && !Taken(m.used, f)
  {
  }

  // ----- from the memory map to the virtual allocator -----

  /** The page bits as `get_free_location_for_bitmap` leaves them, with the bitmap at `base`. */
  ghost predicate BootBits(regions: seq<Region>, base: nat, used: PageBits) {
    && |used| == HighestEnd(regions) / PAGE_SIZE
    && forall i :: 0 <= i < |used| ==> (!used[i] <==> i in UsablePages(regions) && i !in BitmapPages(|used|, base))
  }

  /** The boot loader's page tables form a tree, outside the usable regions. */
  ghost predicate LoaderTree(m: Machine, regions: seq<Region>) {
    && (forall p: seq<Index>, q: seq<Index> ::
          |p| <= 3 && |q| <= 3 && TableAt(m, p).Some? && TableAt(m, p) == TableAt(m, q) ==> p == q)
    && (forall p: seq<Index> :: |p| <= 3 && TableAt(m, p).Some? ==>
          TableAt(m, p).value !in UsablePages(regions) && (p != [] ==> TableAt(m, p).value != 0))
    && (forall p: seq<Index>, i: Index ::
          |p| <= 2 && TableAt(m, p).Some? && !m.frames[TableAt(m, p).value][i].present ==>
          !m.frames[TableAt(m, p).value][i].large)
  }

  lemma LoaderInv(regions: seq<Region>, base: nat, m: Machine)
    requires WellFormed(regions) && BootBits(regions, base, m.used) && LoaderTree(m, regions)
    ensures Inv(m) && Taken(m.used, 0)
  {
    hide TableAt, UsablePages, BitmapPages, WellFormed;
    PageZeroReserved(regions);
  }

  /**
   * From the memory map to the virtual allocator: after both bitmaps were placed, ownership holds with page 0 and the
   * pages of the two bitmaps reserved, and the bitmaps share no page.
   */
  lemma BootThenInit(regions: seq<Region>, base: nat, m: Machine)
    requires WellFormed(regions) && BootBits(regions, base, m.used) && LoaderTree(m, regions)
    requires WindowEmpty(m) && |m.used| <= WINDOW_PAGES && InitVmm(m).1.Some?
    ensures var (k, addr) := InitVmm(m);
            var own := {0} + BitmapPages(|m.used|, base);
            && KernelInv(k, own + VmmBitmapPages(m, addr.value))
            && VmmBitmapPages(m, addr.value) !! own
            && VmmBitmapPages(m, addr.value) <= UsablePages(regions)
  {
    LoaderInv(regions, base, m);
    var own := {0} + BitmapPages(|m.used|, base);
    hide Inv, InitVmm, VmmBitmapPages, WindowEmpty, LoaderTree, UsablePages, BitmapPages, KernelInv, SameTranslation;
    InitVmmEstablishes(m, own);
    forall f | f in VmmBitmapPages(m, InitVmm(m).1.value)
      ensures f in UsablePages(regions)
    {
    }
  }

  // ----- addresses of bytes -----

  /** The physical address behind a virtual one, when a 4 KiB page is mapped there. */
  function Physical(m: Machine, v: nat): Option<nat> {
    match Translate(m, Path(v))
    case Page(f, _, _) => Some(f * PAGE_SIZE + v % PAGE_SIZE)
    case _ => None
  }

  lemma ByteInPage(j: nat, o: nat)
    ensures Path(PageAddr(j) + o) == WindowPath(j + o / PAGE_SIZE) && (PageAddr(j) + o) % PAGE_SIZE == o % PAGE_SIZE
  {
    SamePathSamePage(PageAddr(j) + o, VMM_BASE + (j + o / PAGE_SIZE) * PAGE_SIZE);
    ByteAddress(j, o);
  }

  lemma ByteAddress(j: nat, o: nat)
    ensures var w := VMM_BASE + (j + o / PAGE_SIZE) * PAGE_SIZE;
            PageAddr(j) + o == w + o % PAGE_SIZE && w % PAGE_SIZE == 0 && (PageAddr(j) + o) / PAGE_SIZE == w / PAGE_SIZE
  {
    var q, r := o / PAGE_SIZE, o % PAGE_SIZE;
    assert o == q * PAGE_SIZE + r;
    assert VMM_BASE == (VMM_BASE / PAGE_SIZE) * PAGE_SIZE;
    WholePages(VMM_BASE / PAGE_SIZE + j + q, r);
  }

  lemma WholePages(n: nat, r: nat)
    requires r < PAGE_SIZE
    ensures n * PAGE_SIZE % PAGE_SIZE == 0 && (n * PAGE_SIZE + r) / PAGE_SIZE == n && n * PAGE_SIZE / PAGE_SIZE == n
  {
  }

  /** Byte `o` of a live range is backed by the frame of its page. */
  lemma ByteBacked(s: State, fixed: set<nat>, st: nat, o: nat)
    requires LiveInv(s, fixed) && st in s.live && o / PAGE_SIZE < s.live[st]
    ensures var w := WindowMap(s.k.m, st + o / PAGE_SIZE);
            && w.Page? && w.writable && DataFrame(s.k.m, fixed, w.frame)
            && st + o / PAGE_SIZE < |s.k.m.used|
            && Translate(s.k.m, Path(PageAddr(st) + o)) == w
            && Physical(s.k.m, PageAddr(st) + o) == Some(w.frame * PAGE_SIZE + o % PAGE_SIZE)
  {
    ByteInPage(st, o);
    hide Translate, PageAddr, Path;
    assert Reserved(s.k, st, s.live[st]) && WritablePages(s.k.m, st, s.live[st]);
    hide Inv, DataFrame;
  }

  /** Two bytes of live ranges with the same physical address are the same byte. */
  lemma BytesNeverAlias(s: State, fixed: set<nat>, a: nat, o: nat, b: nat, q: nat)
    requires LiveInv(s, fixed) && a in s.live && b in s.live
    requires o / PAGE_SIZE < s.live[a] && q / PAGE_SIZE < s.live[b]
    requires Physical(s.k.m, PageAddr(a) + o) == Physical(s.k.m, PageAddr(b) + q)
    ensures a == b && o == q
  {
    hide Physical, PageAddr, Path, WindowMap, KernelInv, DataFrame, Reserved, WritablePages, Translate;
    ByteBacked(s, fixed, a, o);
    ByteBacked(s, fixed, b, q);
    var j, l := a + o / PAGE_SIZE, b + q / PAGE_SIZE;
    SameFrameAddress(WindowMap(s.k.m, j).frame, o % PAGE_SIZE, WindowMap(s.k.m, l).frame, q % PAGE_SIZE);
    assert ShareFrame(WindowMap(s.k.m, j), WindowMap(s.k.m, l));
    SharedPage(s, fixed, j, l);
    SameRange(s, fixed, a, b, j);
  }

  /** A page lies in one live range. */
  lemma SameRange(s: State, fixed: set<nat>, a: nat, b: nat, j: nat)
    requires LiveInv(s, fixed) && a in s.live && b in s.live
    requires a <= j < a + s.live[a] && b <= j < b + s.live[b]
    ensures a == b
  {
    hide KernelInv, Reserved, WritablePages;
  }

  lemma SharedPage(s: State, fixed: set<nat>, j: nat, l: nat)
    requires LiveInv(s, fixed) && j < |s.k.m.used| && l < |s.k.m.used|
    requires ShareFrame(WindowMap(s.k.m, j), WindowMap(s.k.m, l))
    ensures j == l
  {
    hide Inv, WindowMap, DataFrame;
  }

  lemma SameFrameAddress(f: nat, o: nat, g: nat, q: nat)
    requires o < PAGE_SIZE && q < PAGE_SIZE && f * PAGE_SIZE + o == g * PAGE_SIZE + q
    ensures f == g && o == q
  {
  }

  /**
   * Whatever other ranges come and go, every byte of a live range stays mapped writable where it was, and no two
   * bytes of it ever share a physical address.
   */
  lemma RangeStaysBacked(s: State, fixed: set<nat>, ops: seq<Op>, st: nat, o: nat, q: nat)
    requires LiveInv(s, fixed) && st in s.live && Delete(st) !in ops
    requires o / PAGE_SIZE < s.live[st] && q / PAGE_SIZE < s.live[st]
    ensures var k' := Run(s, ops).k;
            var w := Translate(k'.m, Path(PageAddr(st) + o));
            && w == Translate(s.k.m, Path(PageAddr(st) + o)) && w.Page? && w.writable
            && (Physical(k'.m, PageAddr(st) + o) == Physical(k'.m, PageAddr(st) + q) ==> o == q)
  {
    hide LiveInv, Run, Translate, Physical, Path, SamePages, DataFrame, PageAddr, WindowMap;
    LiveRun(s, ops, fixed);
    var s' := Run(s, ops);
    ByteBacked(s, fixed, st, o);
    ByteBacked(s', fixed, st, o);
    SamePage(s.k, s'.k, st, s.live[st], st + o / PAGE_SIZE);
    if Physical(s'.k.m, PageAddr(st) + o) == Physical(s'.k.m, PageAddr(st) + q) {
      BytesNeverAlias(s', fixed, st, o, st, q);
    }
  }

  lemma SamePage(k: Kernel, k': Kernel, st: nat, n: nat, j: nat)
    requires SamePages(k, k', st, n) && st <= j < st + n
    ensures WindowMap(k'.m, j) == WindowMap(k.m, j)
  {
  }

  // ----- the heap's range -----

  /** A successful allocation of the heap makes it the one live range, of exactly `INIT_HEAP_SIZE` bytes. */
  lemma HeapIsLive(k0: Kernel, fixed: set<nat>)
    requires KernelInv(k0, fixed) && Malloc(k0, INIT_HEAP_SIZE).1 != 0
    ensures var (k, addr) := Malloc(k0, INIT_HEAP_SIZE);
            && addr >= VMM_BASE && PageAddr(PageOf(addr)) == addr
            && LiveInv(State(k, map[PageOf(addr) := INIT_HEAP_SIZE / PAGE_SIZE]), fixed)
  {
    hide Malloc, LiveInv, KernelInv, FirstRun, Step, SamePages, AllocatedAt, DivideRoundUp, PageOf, PageAddr;
    var s := State(k0, map[]);
    NothingLive(k0, fixed);
    NewStep(s, INIT_HEAP_SIZE, fixed);
    MallocBrief(k0, INIT_HEAP_SIZE, fixed);
    PagesOfBytes(INIT_HEAP_SIZE / PAGE_SIZE);
    var (k, addr) := Malloc(k0, INIT_HEAP_SIZE);
    var n := INIT_HEAP_SIZE / PAGE_SIZE;
    var b := FirstRun(k0.rsv, n).value;
    NewAddress(k0, k, addr, b, n);
    GivenAddress(k0, k, addr, b, n);
    FirstStep(k0);
  }

  lemma NothingLive(k: Kernel, fixed: set<nat>)
    requires KernelInv(k, fixed)
    ensures LiveInv(State(k, map[]), fixed)
  {
  }

  lemma GivenAddress(k: Kernel, k': Kernel, addr: nat, b: nat, n: nat)
    requires AllocatedAt(k, k', addr, b, n) && addr != 0
    ensures addr == PageAddr(b)
  {
  }

  lemma FirstStep(k0: Kernel)
    requires Malloc(k0, INIT_HEAP_SIZE).1 >= VMM_BASE
    ensures var (k, addr) := Malloc(k0, INIT_HEAP_SIZE);
            Step(State(k0, map[]), New(INIT_HEAP_SIZE)) == State(k, map[PageOf(addr) := INIT_HEAP_SIZE / PAGE_SIZE])
  {
    hide Malloc;
    PagesOfBytes(INIT_HEAP_SIZE / PAGE_SIZE);
  }
}
