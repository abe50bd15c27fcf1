/** The virtual page allocator: frames from the physical allocator, mapped into a window of virtual pages. */
module VmmSpec {
  import opened Arith
  import opened BitRuns
  import opened PageTables
  import opened PageRanges
  import PmmSpec

  const VMM_BASE: nat := 0xFFFF_B000_0000_0000
  /** Pages between the window's base and the end of the address space. */
  const WINDOW_PAGES: nat := 0x5_0000_0000

  /** The machine and the bits of `vmm_bitmap`. */
  datatype Kernel = Kernel(m: Machine, rsv: seq<bool>)

  datatype Fill = Exhausted | Done(ok: bool)

  const WRITABLE := Flags(true, false)

  function PageAddr(j: nat): nat {
    VMM_BASE + j * PAGE_SIZE
  }

  function WindowPath(j: nat): (p: seq<Index>)
    ensures |p| == 4
  {
    PagePath(VMM_BASE, j)
  }

  function WindowMap(m: Machine, j: nat): Mapping {
    Translate(m, WindowPath(j))
  }

  // ----- the kernel's operations -----

  /** The first `n` rounds of the loop in `vmm_malloc_pages`. */
  function FillRounds(m: Machine, b: nat, n: nat): (Machine, Fill) {
    if n == 0 then (m, Done(true))
    else
      var (m1, s) := FillRounds(m, b, n - 1);
      if s.Exhausted? then (m1, s)
      else
        var (used, r) := PmmSpec.Malloc(m1.used, PAGE_SIZE);
        if r.None? then (m1, Exhausted)
        else
          var (m2, ok) := MapPage(m1.(used := used), PageAddr(b + n - 1), r.value, WRITABLE);
          (m2, Done(s.ok && ok))
  }

  /** `vmm_malloc_pages`; 0 is its failure value. */
  function Malloc(k: Kernel, byteAmount: nat): (Kernel, nat) {
    var n := DivideRoundUp(byteAmount, PAGE_SIZE);
    match FirstRun(k.rsv, n)
    case None => (k, 0)
    case Some(b) =>
      var rsv := WriteRange(k.rsv, b, n, true);
      var (m, s) := FillRounds(k.m, b, n);
      match s
      case Exhausted => (Kernel(m, WriteRange(rsv, b, n, false)), 0)
      case Done(ok) => (Kernel(m, rsv), if ok then PageAddr(b) else 0)
  }

  /** The body of the loop in `vmm_free_pages`, with its `currPage` and `success`. */
  function ReleaseStep(k: Kernel, currVirtAddr: nat, currPage: nat, ok: bool): (Kernel, nat, bool) {
    var (m1, r) := PageWalk(k.m, currVirtAddr);
    if r.None? || !m1.frames[r.value][PtIndex(currVirtAddr)].present then (Kernel(m1, k.rsv), currPage, false)
    else
      var rsv := WriteRange(k.rsv, currPage, 1, false);
      var physAddr := m1.frames[r.value][PtIndex(currVirtAddr)].frame * PAGE_SIZE;
      var (m2, freed) := FreePage(m1, currVirtAddr);
      var used := PmmSpec.Free(m2.used, physAddr, PAGE_SIZE);
      (Kernel(m2.(used := used), rsv), currPage + 1, ok && freed)
  }

  /** The first `n` rounds of that loop. */
  function ReleaseRounds(k: Kernel, virtAddr: nat, n: nat): (Kernel, nat, bool)
    requires virtAddr >= VMM_BASE
  {
    if n == 0 then (k, (virtAddr - VMM_BASE) / PAGE_SIZE, true)
    else
      var (k1, currPage, ok) := ReleaseRounds(k, virtAddr, n - 1);
      ReleaseStep(k1, virtAddr + (n - 1) * PAGE_SIZE, currPage, ok)
  }

  /** `vmm_free_pages` */
  function Free(k: Kernel, virtAddr: nat, byteAmount: nat): (Kernel, bool)
    requires virtAddr >= VMM_BASE
  {
    var (k', _, ok) := ReleaseRounds(k, virtAddr, DivideRoundUp(byteAmount, PAGE_SIZE));
    (k', ok)
  }

  // ----- page bits do not take part in translation -----

  lemma {:induction false} TableAtIgnoresBits(m: Machine, u: PageBits, p: seq<Index>)
    ensures TableAt(m.(used := u), p) == TableAt(m, p)
    decreases |p|
  {
    if p != [] {
      TableAtIgnoresBits(m, u, p[..|p| - 1]);
    }
  }

  lemma {:induction false} WalkIgnoresBits(m: Machine, u: PageBits, t: Frame, p: seq<Index>, w: bool)
    requires p != []
    ensures HardwareWalk(m.(used := u), t, p, w) == HardwareWalk(m, t, p, w)
    decreases |p|
  {
    if |p| > 1 {
      WalkIgnoresBits(m, u, m.frames[t][p[0]].frame, p[1..], w && m.frames[t][p[0]].writable);
    }
  }

  lemma BitsOnly(m: Machine, u: PageBits)
    ensures SameTranslation(m, m.(used := u)) && Tables(m.(used := u)) == Tables(m)
    ensures forall p: seq<Index> :: TableAt(m.(used := u), p) == TableAt(m, p)
    ensures forall f: nat :: IsTable(m.(used := u), f) == IsTable(m, f)
  {
    var m' := m.(used := u);
    forall p: seq<Index>
      ensures TableAt(m', p) == TableAt(m, p)
    {
      TableAtIgnoresBits(m, u, p);
    }
    forall q: seq<Index> | |q| == 4
      ensures Translate(m', q) == Translate(m, q) && PathWritable(m', q) == PathWritable(m, q)
    {
      WalkIgnoresBits(m, u, m.root, q, true);
    }
    assert forall f: nat :: IsTable(m', f) == IsTable(m, f);
  }

  /** Page bits may change as long as the tables and page 0 stay marked. */
  lemma BitsKeepInv(m: Machine, u: PageBits)
    requires Inv(m) && Taken(u, 0) && forall f: nat :: IsTable(m, f) ==> Taken(u, f)
    ensures Inv(m.(used := u))
  {
    BitsOnly(m, u);
    forall p: seq<Index> | |p| <= 3 && TableAt(m, p).Some?
      ensures Taken(u, TableAt(m, p).value)
    {
      assert IsTable(m, TableAt(m, p).value);
    }
  }

  lemma TableMarked(m: Machine, f: nat)
    requires Inv(m) && IsTable(m, f)
    ensures Taken(m.used, f)
  {
    var p: seq<Index> :| |p| <= 3 && TableAt(m, p) == Some(f);
    TableIsTaken(m, p);
  }

  lemma ZeroMarked(m: Machine)
    requires Inv(m)
    ensures Taken(m.used, 0)
  {
  }

  // ----- ownership -----

  /** A frame below the page count that is marked used and is neither a page table nor reserved otherwise. */
  ghost predicate DataFrame(m: Machine, fixed: set<nat>, f: nat) {
    f < |m.used| && m.used[f] && !IsTable(m, f) && f !in fixed
  }

  /** No table above a window page is linked read-only. */
  ghost predicate WindowWritable(m: Machine) {
    forall j: nat :: j < |m.used| ==> PathWritable(m, WindowPath(j))
  }

  /**
   * Distinct mapped window pages have distinct frames, each of them a data frame. `fixed` are the
   * frames reserved at boot (page 0, the bitmaps), which stay marked.
   */
  ghost predicate WindowInv(m: Machine, fixed: set<nat>) {
    && Inv(m) && |m.used| <= WINDOW_PAGES && WindowWritable(m)
    && 0 in fixed && (forall f :: f in fixed ==> Taken(m.used, f))
    && (forall j: nat :: j < |m.used| ==> !WindowMap(m, j).Huge?)
    && (forall j: nat :: j < |m.used| && WindowMap(m, j).Page? ==> DataFrame(m, fixed, WindowMap(m, j).frame))
    && (forall j: nat, l: nat ::
          j < |m.used| && l < |m.used| && ShareFrame(WindowMap(m, j), WindowMap(m, l)) ==> j == l)
  }

  ghost predicate ShareFrame(a: Mapping, b: Mapping) {
    a.Page? && b.Page? && a.frame == b.frame
  }

  lemma WindowFromParts(m: Machine, m': Machine, fixed: set<nat>)
    requires WindowInv(m, fixed) && Inv(m') && SameTranslation(m, m') && |m'.used| == |m.used|
    requires forall f :: DataFrame(m, fixed, f) ==> DataFrame(m', fixed, f)
    requires forall f :: f in fixed ==> Taken(m'.used, f)
    ensures WindowInv(m', fixed)
  {
    hide Inv, Translate, DataFrame, PathWritable;
    forall j: nat | j < |m.used|
      ensures WindowMap(m', j) == WindowMap(m, j) && PathWritable(m', WindowPath(j)) == PathWritable(m, WindowPath(j))
    {
    }
  }

  lemma WindowPathsDiffer(j: nat, l: nat)
    requires j != l && j < WINDOW_PAGES && l < WINDOW_PAGES
    ensures WindowPath(j) != WindowPath(l)
  {
    if j < l {
      PagesOfRangeDiffer(VMM_BASE, j, l);
    } else {
      PagesOfRangeDiffer(VMM_BASE, l, j);
    }
  }

  /** Creating page tables does not disturb ownership. */
  lemma TablesKeepWindow(m: Machine, m': Machine, fixed: set<nat>)
    requires WindowInv(m, fixed) && Inv(m') && SameTranslation(m, m') && PaidForTables(m, m')
    ensures WindowInv(m', fixed)
  {
    hide Inv, Translate;
    forall f | DataFrame(m, fixed, f)
      ensures DataFrame(m', fixed, f)
    {
      DataFrameStays(m, m', fixed, f);
    }
    forall f | f in fixed
      ensures Taken(m'.used, f)
    {
      MarkedStays(m, m', f);
    }
    WindowFromParts(m, m', fixed);
  }

  lemma MarkedStays(m: Machine, m': Machine, f: nat)
    requires PaidForTables(m, m')
    ensures Taken(m.used, f) ==> Taken(m'.used, f)
  {
    if f < |m.used| && m.used[f] {
      assert f in UsedSet(m.used);
    }
  }

  lemma DataFrameStays(m: Machine, m': Machine, fixed: set<nat>, f: nat)
    requires PaidForTables(m, m') && DataFrame(m, fixed, f) && |m.used| <= FRAMES
    ensures DataFrame(m', fixed, f)
  {
    assert f in UsedSet(m.used) && f in UsedSet(m'.used);
    assert f !in Tables(m);
    assert f !in Tables(m');
  }

  // ----- one page of vmm_malloc_pages -----

  /** The step from `m` to `m'` took the frames `data` for data and the new tables, and nothing else. */
  ghost predicate PaidFor(m: Machine, m': Machine, data: set<nat>) {
    && |m'.used| == |m.used|
    && Tables(m) <= Tables(m')
    && data !! UsedSet(m.used) && data !! Tables(m')
    && UsedSet(m.used) !! Tables(m') - Tables(m)
    && UsedSet(m'.used) == UsedSet(m.used) + (Tables(m') - Tables(m)) + data
  }

  lemma PaidForTransitive(a: Machine, b: Machine, c: Machine, d: set<nat>, e: set<nat>)
    requires PaidFor(a, b, d) && PaidFor(b, c, e)
    ensures PaidFor(a, c, d + e) && d !! e
  {
    assert Tables(c) - Tables(a) == (Tables(c) - Tables(b)) + (Tables(b) - Tables(a));
    assert d <= UsedSet(b.used);
    assert d !! Tables(c);
  }

  lemma FreeFrameIsNoTable(m: Machine, f: nat)
    requires Inv(m) && f < |m.used| && !m.used[f]
    ensures !IsTable(m, f)
  {
    assert Taken(m.used, f) ==> false;
  }

  lemma MarkInv(m: Machine, f: nat)
    requires Inv(m) && f < |m.used| && !m.used[f]
    ensures var m1 := m.(used := m.used[f := true]);
            && Inv(m1) && SameTranslation(m, m1) && PaidFor(m, m1, {f}) && !IsTable(m1, f)
            && forall g: nat :: IsTable(m1, g) == IsTable(m, g)
  {
    var u: PageBits := m.used[f := true];
    FreeFrameIsNoTable(m, f);
    BitsOnly(m, u);
    ZeroMarked(m);
    hide Inv, Translate, IsTable, SameTranslation, TableAt;
    forall g: nat | IsTable(m, g)
      ensures Taken(u, g)
    {
      TableMarked(m, g);
    }
    BitsKeepInv(m, u);
    MarkCosts(m.used, f);
  }

  lemma MarkFrame(m: Machine, f: nat, fixed: set<nat>)
    requires WindowInv(m, fixed) && f < |m.used| && !m.used[f]
    ensures var m1 := m.(used := m.used[f := true]);
            && WindowInv(m1, fixed) && SameTranslation(m, m1) && PaidFor(m, m1, {f})
            && DataFrame(m1, fixed, f)
            && forall j: nat :: j < |m.used| && WindowMap(m, j).Page? ==> WindowMap(m, j).frame != f
  {
    hide Inv, Translate, IsTable, Tables, SameTranslation, PaidFor;
    var m1 := m.(used := m.used[f := true]);
    MarkInv(m, f);
    assert forall g :: DataFrame(m, fixed, g) ==> DataFrame(m1, fixed, g);
    WindowFromParts(m, m1, fixed);
  }

  /** Ownership after window page `j` alone was given the unshared data frame `f`. */
  lemma WindowUpdate(m: Machine, m': Machine, j: nat, f: nat, ok: bool, fixed: set<nat>)
    requires WindowInv(m, fixed) && Inv(m') && SameRights(m, m') && j < |m.used| == |m'.used| && DataFrame(m, fixed, f)
    requires forall l: nat :: l < |m.used| && WindowMap(m, l).Page? ==> WindowMap(m, l).frame != f
    requires forall g :: DataFrame(m, fixed, g) ==> DataFrame(m', fixed, g)
    requires forall g :: g in fixed ==> Taken(m'.used, g)
    requires forall l: nat :: l < |m.used| ==>
               WindowMap(m', l) == if l == j && ok then Page(f, true, false) else WindowMap(m, l)
    ensures WindowInv(m', fixed)
  {
    hide Inv, WindowMap, DataFrame, Taken;
    RightsKept(m, m');
    hide WindowWritable, SameRights;
  }

  lemma RightsKept(m: Machine, m': Machine)
    requires WindowWritable(m) && SameRights(m, m') && |m'.used| == |m.used|
    ensures WindowWritable(m')
  {
    hide PathWritable;
  }

  /** Mapping window page `j` to a data frame that no page has yet. */
  lemma MapOwned(m: Machine, j: nat, f: nat, fixed: set<nat>)
    requires WindowInv(m, fixed) && j < |m.used| && DataFrame(m, fixed, f)
    requires forall l: nat :: l < |m.used| && WindowMap(m, l).Page? ==> WindowMap(m, l).frame != f
    ensures var (m', ok) := MapPage(m, PageAddr(j), f * PAGE_SIZE, WRITABLE);
            && WindowInv(m', fixed) && SameExcept(m, m', PageAddr(j)) && PaidForTables(m, m')
            && WindowMap(m', j) == (if ok then Page(f, true, false) else WindowMap(m, j))
            && (!ok ==> FreeCount(m'.used) == 0)
  {
    hide Inv, Translate, MapPage, FreeCount, IsTable, PathWritable;
    assert PathWritable(m, WindowPath(j));
    assert WindowPath(j) == Path(PageAddr(j)) && WindowMap(m, j) == Translate(m, Path(PageAddr(j)));
    MapPageRefines(m, PageAddr(j), f * PAGE_SIZE, WRITABLE);
    MapPageSucceeds(m, PageAddr(j), f * PAGE_SIZE, WRITABLE);
    assert f * PAGE_SIZE / PAGE_SIZE % FRAMES == f;
    var (m', ok) := MapPage(m, PageAddr(j), f * PAGE_SIZE, WRITABLE);
    OthersSame(m, m', j);
    forall g | DataFrame(m, fixed, g)
      ensures DataFrame(m', fixed, g)
    {
      DataFrameStays(m, m', fixed, g);
    }
    forall g | g in fixed
      ensures Taken(m'.used, g)
    {
      MarkedStays(m, m', g);
    }
    assert SameRights(m, m');
    hide Path, WindowPath, PaidForTables, SameExcept, PageAddr, DataFrame, Taken, MissingTables, SameRights,
      WindowWritable;
    WindowUpdate(m, m', j, f, ok, fixed);
  }

  lemma OthersSame(m: Machine, m': Machine, j: nat)
    requires j < |m.used| <= WINDOW_PAGES && SameExcept(m, m', PageAddr(j))
    ensures forall l: nat :: l < |m.used| && l != j ==> WindowMap(m', l) == WindowMap(m, l)
  {
    hide Translate;
    forall l: nat | l < |m.used| && l != j
      ensures WindowMap(m', l) == WindowMap(m, l)
    {
      WindowPathsDiffer(l, j);
    }
  }
}
