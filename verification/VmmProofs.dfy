/** What `vmm_malloc_pages` and `vmm_free_pages` do to the window, the frames and the page bits. */
module VmmProofs {
  import opened Arith
  import opened BitRuns
  import opened PageTables
  import opened VmmSpec
  import PmmSpec

  ghost predicate InWindow(q: seq<Index>, b: nat, n: nat) {
    exists j: nat :: b <= j < b + n && q == WindowPath(j)
  }

  /** No translation changed except those of the window pages `b .. b + n`, and no path's right to write. */
  ghost predicate OnlyWindow(m: Machine, m': Machine, b: nat, n: nat) {
    && (forall q: seq<Index> :: |q| == 4 && !InWindow(q, b, n) ==> Translate(m', q) == Translate(m, q))
    && SameRights(m, m')
  }

  ghost predicate WritablePages(m: Machine, b: nat, n: nat) {
    forall j: nat :: b <= j < b + n ==> WindowMap(m, j).Page? && WindowMap(m, j).writable && !WindowMap(m, j).cacheOff
  }

  ghost predicate MappedPages(m: Machine, b: nat, n: nat) {
    forall j: nat :: b <= j < b + n ==> WindowMap(m, j).Page?
  }

  /** The frames behind the window pages `b .. b + n`. */
  ghost function FramesOf(m: Machine, b: nat, n: nat): set<nat> {
    if n == 0 then {}
    else
      var w := WindowMap(m, b + n - 1);
      FramesOf(m, b, n - 1) + if w.Page? then {w.frame} else {}
  }

  lemma {:induction false} FramesOfMember(m: Machine, b: nat, n: nat, f: nat)
    ensures f in FramesOf(m, b, n)
            <==> exists j: nat :: b <= j < b + n && WindowMap(m, j).Page? && WindowMap(m, j).frame == f
  {
    hide WindowMap;
    if n > 0 {
      FramesOfMember(m, b, n - 1, f);
    }
  }

  lemma {:induction false} FramesOfSame(m1: Machine, m2: Machine, b: nat, n: nat)
    requires forall j: nat :: b <= j < b + n ==> WindowMap(m2, j) == WindowMap(m1, j)
    ensures FramesOf(m2, b, n) == FramesOf(m1, b, n)
  {
    hide WindowMap;
    if n > 0 {
      FramesOfSame(m1, m2, b, n - 1);
    }
  }

  lemma OnlyWindowKeeps(m: Machine, m': Machine, b: nat, n: nat, j: nat)
    requires OnlyWindow(m, m', b, n) && b + n <= WINDOW_PAGES && j < WINDOW_PAGES && !(b <= j < b + n)
    ensures WindowMap(m', j) == WindowMap(m, j)
  {
    hide Translate;
    if InWindow(WindowPath(j), b, n) {
      var l: nat :| b <= l < b + n && WindowPath(j) == WindowPath(l);
      WindowPathsDiffer(j, l);
    }
  }

  lemma OnlyWindowStep(m: Machine, m1: Machine, m2: Machine, b: nat, n: nat)
    requires OnlyWindow(m, m1, b, n) && SameExcept(m1, m2, PageAddr(b + n))
    ensures OnlyWindow(m, m2, b, n + 1)
  {
    hide Translate, PathWritable;
    assert Path(PageAddr(b + n)) == WindowPath(b + n);
    forall q: seq<Index> | |q| == 4 && !InWindow(q, b, n + 1)
      ensures Translate(m2, q) == Translate(m, q)
    {
      assert !InWindow(q, b, n);
    }
  }

  // ----- vmm_malloc_pages -----

  lemma FillRound(m: Machine, j: nat, fixed: set<nat>)
    requires WindowInv(m, fixed) && j < |m.used|
    ensures var (used, r) := PmmSpec.Malloc(m.used, PAGE_SIZE);
            if r.None? then FreeCount(m.used) == 0
            else
              var f := r.value / PAGE_SIZE;
              var (m', ok) := MapPage(m.(used := used), PageAddr(j), r.value, WRITABLE);
              && f < |m.used| && WindowInv(m', fixed) && SameExcept(m, m', PageAddr(j)) && PaidFor(m, m', {f})
              && WindowMap(m', j) == (if ok then Page(f, true, false) else WindowMap(m, j))
              && (!ok ==> FreeCount(m'.used) == 0)
  {
    hide Inv, WindowInv, Translate, MapPage, FreeCount, PaidFor, Tables, DataFrame;
    NoFreePage(m.used);
    FreshPage(m.used);
    var (used, r) := PmmSpec.Malloc(m.used, PAGE_SIZE);
    if r.Some? {
      var f := r.value / PAGE_SIZE;
      var m1 := m.(used := used);
      MarkFrame(m, f, fixed);
      SameWindow(m, m1);
      MapOwned(m1, j, f, fixed);
      var m' := MapPage(m1, PageAddr(j), r.value, WRITABLE).0;
      PaidForNoData(m1, m');
      PaidForTransitive(m, m1, m', {f}, {});
      assert {f} + {} == {f};
    }
  }

  lemma SameWindow(m: Machine, m': Machine)
    requires SameTranslation(m, m')
    ensures forall j: nat :: WindowMap(m', j) == WindowMap(m, j)
  {
  }

  lemma PaidForNoData(m: Machine, m': Machine)
    requires PaidForTables(m, m')
    ensures PaidFor(m, m', {})
  {
  }

  /** The outcome of the first `n` rounds: all mapped and paid for, or the physical pages ran out. */
  ghost predicate Filled(m: Machine, m': Machine, s: Fill, b: nat, n: nat) {
    && |m'.used| == |m.used| && OnlyWindow(m, m', b, n)
    && UsedSet(m.used) <= UsedSet(m'.used)
    && (s == Done(true) ==> WritablePages(m', b, n) && PaidFor(m, m', FramesOf(m', b, n)))
    && (s != Done(true) ==> FreeCount(m'.used) == 0)
  }

  lemma {:induction false} FillRoundsOutcome(m: Machine, b: nat, n: nat, fixed: set<nat>)
    requires WindowInv(m, fixed) && b + n <= |m.used|
    ensures var (m', s) := FillRounds(m, b, n);
            WindowInv(m', fixed) && Filled(m, m', s, b, n)
  {
    hide Filled, Translate, MapPage, FreeCount, PaidFor, SameExcept, WindowInv;
    WindowSize(m, fixed);
    if n == 0 {
      FilledNothing(m, b);
    } else {
      FillRoundsOutcome(m, b, n - 1, fixed);
      var (m1, s) := FillRounds(m, b, n - 1);
      FilledSize(m, m1, s, b, n - 1);
      FillRound(m1, b + n - 1, fixed);
      var (used, r) := PmmSpec.Malloc(m1.used, PAGE_SIZE);
      if s.Exhausted? || r.None? {
        FilledStuck(m, m1, s, b, n - 1);
      } else {
        var (m2, ok) := MapPage(m1.(used := used), PageAddr(b + n - 1), r.value, WRITABLE);
        FilledStep(m, m1, m2, s.ok, ok, r.value / PAGE_SIZE, b, n - 1);
      }
    }
  }

  lemma WindowSize(m: Machine, fixed: set<nat>)
    requires WindowInv(m, fixed)
    ensures |m.used| <= WINDOW_PAGES
  {
  }

  lemma FilledNothing(m: Machine, b: nat)
    ensures Filled(m, m, Done(true), b, 0)
  {
    assert FramesOf(m, b, 0) == {};
  }

  lemma FilledSize(m: Machine, m1: Machine, s: Fill, b: nat, n: nat)
    requires Filled(m, m1, s, b, n)
    ensures |m1.used| == |m.used|
  {
  }

  lemma FilledStuck(m: Machine, m1: Machine, s: Fill, b: nat, n: nat)
    requires Filled(m, m1, s, b, n) && (s.Exhausted? || FreeCount(m1.used) == 0)
    ensures Filled(m, m1, Exhausted, b, n + 1)
  {
    hide Translate, PaidFor, FreeCount, UsedSet;
    forall q: seq<Index> | |q| == 4 && !InWindow(q, b, n + 1)
      ensures Translate(m1, q) == Translate(m, q)
    {
      assert !InWindow(q, b, n);
    }
  }

  lemma FilledStep(m: Machine, m1: Machine, m2: Machine, ok1: bool, ok2: bool, f: Frame, b: nat, n: nat)
    requires Filled(m, m1, Done(ok1), b, n) && b + n < WINDOW_PAGES
    requires SameExcept(m1, m2, PageAddr(b + n)) && PaidFor(m1, m2, {f})
    requires WindowMap(m2, b + n) == if ok2 then Page(f, true, false) else WindowMap(m1, b + n)
    requires !ok2 ==> FreeCount(m2.used) == 0
    ensures Filled(m, m2, Done(ok1 && ok2), b, n + 1)
  {
    hide Translate, FreeCount, WindowMap, SameExcept, PageAddr, OnlyWindow, UsedSet, Tables;
    OnlyWindowStep(m, m1, m2, b, n);
    EarlierPagesSame(m1, m2, b, n);
    PaidGrows(m1, m2, {f});
    if ok1 && ok2 {
      PagesStep(m, m1, m2, f, b, n);
    }
  }

  lemma PagesStep(m: Machine, m1: Machine, m2: Machine, f: Frame, b: nat, n: nat)
    requires WritablePages(m1, b, n) && PaidFor(m, m1, FramesOf(m1, b, n)) && PaidFor(m1, m2, {f})
    requires forall j: nat :: b <= j < b + n ==> WindowMap(m2, j) == WindowMap(m1, j)
    requires WindowMap(m2, b + n) == Page(f, true, false)
    ensures WritablePages(m2, b, n + 1) && PaidFor(m, m2, FramesOf(m2, b, n + 1))
  {
    hide WindowMap, PaidFor;
    FramesOfSame(m1, m2, b, n);
    assert FramesOf(m2, b, n + 1) == FramesOf(m1, b, n) + {f};
    PaidForTransitive(m, m1, m2, FramesOf(m1, b, n), {f});
  }

  lemma PaidGrows(m1: Machine, m2: Machine, data: set<nat>)
    requires PaidFor(m1, m2, data)
    ensures UsedSet(m1.used) <= UsedSet(m2.used) && FreeCount(m2.used) <= FreeCount(m1.used)
  {
    hide Tables, UsedSet;
    StillEmpty(m1, m2);
  }

  lemma EarlierPagesSame(m1: Machine, m2: Machine, b: nat, n: nat)
    requires b + n < WINDOW_PAGES && SameExcept(m1, m2, PageAddr(b + n))
    ensures forall j: nat :: b <= j < b + n ==> WindowMap(m2, j) == WindowMap(m1, j)
  {
    hide Translate;
    assert WindowPath(b + n) == Path(PageAddr(b + n));
    forall j: nat | b <= j < b + n
      ensures WindowMap(m2, j) == WindowMap(m1, j)
    {
      WindowPathsDiffer(j, b + n);
    }
  }

  lemma StillEmpty(m1: Machine, m2: Machine)
    requires |m1.used| == |m2.used| && UsedSet(m1.used) <= UsedSet(m2.used)
    ensures FreeCount(m2.used) <= FreeCount(m1.used)
  {
    SubsetSize(UsedSet(m1.used), UsedSet(m2.used));
  }

  lemma Unshared(m: Machine, j: nat, l: nat, fixed: set<nat>)
    requires WindowInv(m, fixed) && j < |m.used| && l < |m.used| && j != l
    ensures !ShareFrame(WindowMap(m, j), WindowMap(m, l))
  {
  }

  /** Ownership makes the frames behind distinct pages distinct, so there are as many as pages. */
  lemma {:induction false} FramesOfSize(m: Machine, b: nat, n: nat, fixed: set<nat>)
    requires WindowInv(m, fixed) && b + n <= |m.used| && MappedPages(m, b, n)
    ensures |FramesOf(m, b, n)| == n
  {
    hide WindowMap, Inv, DataFrame;
    if n > 0 {
      FramesOfSize(m, b, n - 1, fixed);
      var f := WindowMap(m, b + n - 1).frame;
      FramesOfMember(m, b, n - 1, f);
      forall j: nat | b <= j < b + n - 1
        ensures WindowMap(m, j).frame != f
      {
        Unshared(m, j, b + n - 1, fixed);
      }
    }
  }

  ghost predicate KernelInv(k: Kernel, fixed: set<nat>) {
    WindowInv(k.m, fixed) && |k.rsv| == |k.m.used|
  }

  lemma WritableAreMapped(m: Machine, b: nat, n: nat)
    requires WritablePages(m, b, n)
    ensures MappedPages(m, b, n)
  {
  }

  lemma BackAgain(bits: seq<bool>, b: nat, n: nat)
    requires FirstRun(bits, n) == Some(b)
    ensures b + n <= |bits| && WriteRange(WriteRange(bits, b, n, true), b, n, false) == bits
  {
  }

  lemma NoRunNoChange(k: Kernel, byteAmount: nat)
    requires FirstRun(k.rsv, DivideRoundUp(byteAmount, PAGE_SIZE)).None?
    ensures Malloc(k, byteAmount) == (k, 0)
  {
  }

  /** How the end of the loop decides the result. */
  lemma MallocOfFill(k: Kernel, byteAmount: nat, m: Machine, s: Fill)
    requires FirstRun(k.rsv, DivideRoundUp(byteAmount, PAGE_SIZE)).Some?
    requires var n := DivideRoundUp(byteAmount, PAGE_SIZE);
             FillRounds(k.m, FirstRun(k.rsv, n).value, n) == (m, s)
    ensures var n := DivideRoundUp(byteAmount, PAGE_SIZE);
            var b := FirstRun(k.rsv, n).value;
            Malloc(k, byteAmount) ==
              (Kernel(m, if s.Exhausted? then k.rsv else WriteRange(k.rsv, b, n, true)),
               if s == Done(true) then PageAddr(b) else 0)
  {
    hide FirstRun, FillRounds, PageAddr, WriteRange;
    BackAgain(k.rsv, FirstRun(k.rsv, DivideRoundUp(byteAmount, PAGE_SIZE)).value, DivideRoundUp(byteAmount, PAGE_SIZE));
  }

  /** The two ways an allocation that found the unreserved range `b .. b + n` can end. */
  ghost predicate MallocResult(k: Kernel, k': Kernel, addr: nat, b: nat, n: nat) {
    && OnlyWindow(k.m, k'.m, b, n)
    && (addr != 0 ==>
          && addr == PageAddr(b) && WritablePages(k'.m, b, n) && k'.rsv == WriteRange(k.rsv, b, n, true)
          && PaidFor(k.m, k'.m, FramesOf(k'.m, b, n)) && |FramesOf(k'.m, b, n)| == n)
    && (addr == 0 ==> FreeCount(k'.m.used) == 0 && (k'.rsv == k.rsv || k'.rsv == WriteRange(k.rsv, b, n, true)))
  }

  /**
   * `vmm_malloc_pages` returns the lowest unreserved range of enough pages, all of it mapped
   * writable to frames that were free before; no other translation changes and no page is spent
   * except those frames and the new tables. When it fails although there is such a range, no
   * physical page is left. Ownership holds in every case. `MallocSucceedsIff` tells which case it is.
   */
  lemma MallocOutcome(k: Kernel, byteAmount: nat, fixed: set<nat>)
    requires KernelInv(k, fixed)
    ensures var n := DivideRoundUp(byteAmount, PAGE_SIZE);
            var (k', addr) := Malloc(k, byteAmount);
            && KernelInv(k', fixed)
            && (match FirstRun(k.rsv, n)
                case None => k' == k && addr == 0
                case Some(b) => MallocResult(k, k', addr, b, n))
  {
    var n := DivideRoundUp(byteAmount, PAGE_SIZE);
    hide Malloc, WindowInv, Filled, FirstRun, FillRounds, MallocResult, DivideRoundUp, WriteRange;
    if FirstRun(k.rsv, n).None? {
      NoRunNoChange(k, byteAmount);
    } else {
      var b := FirstRun(k.rsv, n).value;
      BackAgain(k.rsv, b, n);
      FillRoundsOutcome(k.m, b, n, fixed);
      var (m, s) := FillRounds(k.m, b, n);
      MallocOfFill(k, byteAmount, m, s);
      FilledSize(k.m, m, s, b, n);
      ResultOfFill(k, b, n, m, s, fixed);
      SameLength(k.rsv, b, n);
    }
  }

  lemma SameLength(bits: seq<bool>, b: nat, n: nat)
    ensures |WriteRange(bits, b, n, true)| == |bits|
  {
  }

  lemma ResultOfFill(k: Kernel, b: nat, n: nat, m: Machine, s: Fill, fixed: set<nat>)
    requires Filled(k.m, m, s, b, n) && WindowInv(m, fixed) && b + n <= |m.used|
    ensures MallocResult(k, Kernel(m, if s.Exhausted? then k.rsv else WriteRange(k.rsv, b, n, true)),
                         if s == Done(true) then PageAddr(b) else 0, b, n)
  {
    hide WindowInv, WindowMap, PaidFor, FreeCount, OnlyWindow, FramesOf, UsedSet, WritablePages, WriteRange;
    if s == Done(true) {
      WritableAreMapped(m, b, n);
      FramesOfSize(m, b, n, fixed);
    }
  }
}
