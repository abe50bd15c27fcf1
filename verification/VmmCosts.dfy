/** What `vmm_malloc_pages` needs: exactly when it succeeds, and what each kind of failure leaves behind. */
module VmmCosts {
  import opened Arith
  import opened BitRuns
  import opened PageTables
  import opened VmmSpec
  import opened VmmProofs
  import opened VmmRelease
  import opened VmmBoot
  import PmmSpec

  // ----- which tables a walk creates -----

  /** `m'` has the tables of `m` and those on the path `q`. */
  ghost predicate TablesAlong(m: Machine, m': Machine, q: seq<Index>)
    requires |q| == 4
  {
    forall p: seq<Index> :: |p| <= 3 ==> (TableAt(m', p).Some? <==> TableAt(m, p).Some? || p == q[..|p|])
  }

  /** `m'` has the tables of `m` and those on the first `d` levels of `q`. */
  ghost predicate TablesDownTo(m: Machine, m': Machine, q: seq<Index>, d: nat)
    requires |q| == 4
  {
    forall p: seq<Index> :: |p| <= 3 ==> (TableAt(m', p).Some? <==> TableAt(m, p).Some? || (|p| <= d && p == q[..|p|]))
  }

  lemma LevelTables(m0: Machine, m: Machine, q: seq<Index>, d: nat)
    requires Inv(m) && |q| == 4 && d <= 2 && !Translate(m, q).Huge? && TableAt(m, q[..d]).Some?
    requires TablesDownTo(m0, m, q, d)
    ensures var (m', f) := GetOrCreateNextTable(m, TableAt(m, q[..d]).value, q[d]);
            f != 0 ==> Inv(m') && !Translate(m', q).Huge? && TableAt(m', q[..d + 1]) == Some(f)
                       && TablesDownTo(m0, m', q, d + 1)
  {
    hide Inv, GetOrCreateNextTable, HardwareWalk, TableAt, FreeCount, Tables, UsedSet;
    assert q[..d + 1] == q[..d] + [q[d]];
    LevelPreserves(m, q, d);
    NotLargeOnPath(m, q, d);
    NextTableCost(m, q[..d], q[d]);
    var (m', f) := GetOrCreateNextTable(m, TableAt(m, q[..d]).value, q[d]);
    if f != 0 {
      forall p: seq<Index> | |p| <= 3
        ensures TableAt(m', p).Some? <==> TableAt(m0, p).Some? || (|p| <= d + 1 && p == q[..|p|])
      {
        if p != q[..d + 1] {
          assert |p| == d + 1 ==> p != q[..|p|];
        }
      }
    }
  }

  /** The lower two levels of the walk. */
  lemma LowerTables(m: Machine, m1: Machine, t1: Frame, q: seq<Index>)
    requires Inv(m1) && |q| == 4 && !Translate(m1, q).Huge? && TableAt(m1, q[..1]) == Some(t1)
             && TablesDownTo(m, m1, q, 1)
    ensures var (m2, t2) := GetOrCreateNextTable(m1, t1, q[1]);
            t2 != 0 ==>
              var (m3, t3) := GetOrCreateNextTable(m2, t2, q[2]);
              t3 != 0 ==> TablesAlong(m, m3, q)
  {
    hide Inv, GetOrCreateNextTable, Translate, TableAt, TablesDownTo, TablesAlong;
    LevelTables(m, m1, q, 1);
    var (m2, t2) := GetOrCreateNextTable(m1, t1, q[1]);
    if t2 != 0 {
      LevelTables(m, m2, q, 2);
      var (m3, t3) := GetOrCreateNextTable(m2, t2, q[2]);
      if t3 != 0 {
        AllLevels(m, m3, q);
      }
    }
  }

  /** A successful walk leaves the tables that were there and those on its path. */
  lemma WalkTables(m: Machine, v: nat)
    requires Inv(m) && !Translate(m, Path(v)).Huge?
    ensures var (m', r) := PageWalk(m, v);
            r.Some? ==> TablesAlong(m, m', Path(v))
  {
    var q := Path(v);
    RootOnly(m, q);
    hide Inv, GetOrCreateNextTable, Translate, TableAt, TablesDownTo, TablesAlong, Pml4Index, PdptIndex, PdIndex,
      PtIndex;
    LevelTables(m, m, q, 0);
    var (m1, t1) := GetOrCreateNextTable(m, m.root, q[0]);
    if t1 != 0 {
      LowerTables(m, m1, t1, q);
    }
  }

  lemma RootOnly(m: Machine, q: seq<Index>)
    requires |q| == 4
    ensures TablesDownTo(m, m, q, 0) && TableAt(m, q[..0]) == Some(m.root)
  {
    assert q[..0] == [];
  }

  lemma AllLevels(m: Machine, m': Machine, q: seq<Index>)
    requires |q| == 4 && TablesDownTo(m, m', q, 3)
    ensures TablesAlong(m, m', q)
  {
    hide TableAt;
  }

  lemma MapPageTables(m: Machine, v: nat, p: nat, flags: Flags)
    requires Inv(m) && !Translate(m, Path(v)).Huge?
    ensures var (m', ok) := MapPage(m, v, p, flags);
            ok ==> TablesAlong(m, m', Path(v))
  {
    WalkTables(m, v);
    WalkPreserves(m, v);
    var (m1, r) := PageWalk(m, v);
    if r.Some? {
      var e := MapPage(m, v, p, flags).0.frames[r.value][PtIndex(v)];
      hide Inv, PageWalk, Translate;
      forall x: seq<Index> | |x| <= 3
        ensures TableAt(MapPage(m, v, p, flags).0, x) == TableAt(m1, x)
      {
        LeafTableAt(m1, Path(v)[..3], PtIndex(v), e, x);
      }
    }
  }

  // ----- the tables that a range lacks -----

  /** The table paths of `q` that lead to no table yet. */
  ghost function MissingOn(m: Machine, q: seq<Index>): set<seq<Index>>
    requires |q| == 4
  {
    set d | 1 <= d <= 3 && TableAt(m, q[..d]).None? :: q[..d]
  }

  /** The table paths of the window pages `b .. b + n` that lead to no table yet. */
  ghost function MissingSet(m: Machine, b: nat, n: nat): set<seq<Index>> {
    if n == 0 then {} else MissingSet(m, b, n - 1) + MissingOn(m, WindowPath(b + n - 1))
  }

  /** The physical pages that mapping the window pages `b .. b + n` takes: one for each page and each missing table. */
  ghost function Need(m: Machine, b: nat, n: nat): nat {
    n + |MissingSet(m, b, n)|
  }

  lemma MissingCount(m: Machine, q: seq<Index>)
    requires |q| == 4
    ensures |MissingOn(m, q)| == MissingTables(m, q, 0)
  {
    var s1 := if TableAt(m, q[..1]).None? then {q[..1]} else {};
    var s2 := if TableAt(m, q[..2]).None? then {q[..2]} else {};
    var s3 := if TableAt(m, q[..3]).None? then {q[..3]} else {};
    hide TableAt;
    assert |q[..1]| != |q[..2]| && |q[..2]| != |q[..3]| && |q[..1]| != |q[..3]|;
    assert MissingOn(m, q) == s1 + s2 + s3;
    assert MissingTables(m, q, 3) == 0;
    assert MissingTables(m, q, 2) == |s3|;
    assert MissingTables(m, q, 1) == |s2| + |s3|;
    assert |s1 + s2| == |s1| + |s2|;
    assert |(s1 + s2) + s3| == |s1 + s2| + |s3|;
  }

  lemma {:induction false} MissingSetMember(m: Machine, b: nat, n: nat, p: seq<Index>)
    requires p in MissingSet(m, b, n)
    ensures 1 <= |p| <= 3 && TableAt(m, p).None?
  {
    hide TableAt;
    if p !in MissingOn(m, WindowPath(b + n - 1)) {
      MissingSetMember(m, b, n - 1, p);
    }
  }

  /** `m'` has exactly the tables of `m` and those that the range lacked. */
  ghost predicate Grown(m: Machine, m': Machine, b: nat, n: nat) {
    forall p: seq<Index> :: |p| <= 3 ==> (TableAt(m', p).Some? <==> TableAt(m, p).Some? || p in MissingSet(m, b, n))
  }

  /** What the next page lacks after the earlier pages got their tables. */
  lemma NextMissing(m: Machine, m1: Machine, b: nat, n: nat)
    requires Grown(m, m1, b, n)
    ensures MissingOn(m1, WindowPath(b + n)) == MissingOn(m, WindowPath(b + n)) - MissingSet(m, b, n)
    ensures |MissingSet(m, b, n + 1)| == |MissingSet(m, b, n)| + |MissingOn(m1, WindowPath(b + n))|
  {
    hide TableAt, WindowPath;
    var q := WindowPath(b + n);
    var before, now := MissingSet(m, b, n), MissingOn(m, q);
    assert MissingOn(m1, q) == now - before;
    assert MissingSet(m, b, n + 1) == before + now;
    assert before + now == before + (now - before);
  }

  lemma GrownStep(m: Machine, m1: Machine, m2: Machine, b: nat, n: nat)
    requires Grown(m, m1, b, n) && TablesAlong(m1, m2, WindowPath(b + n))
    ensures Grown(m, m2, b, n + 1)
  {
    hide WindowPath;
    var q := WindowPath(b + n);
    forall p: seq<Index> | |p| <= 3
      ensures TableAt(m2, p).Some? <==> TableAt(m, p).Some? || p in MissingSet(m, b, n + 1)
    {
      if p in MissingOn(m, q) {
        assert p == q[..|p|];
      } else if p == q[..|p|] && p != [] {
        assert TableAt(m, p).Some?;
      }
    }
  }

  // ----- the filling loop -----

  /** What the first `n` rounds do, by the number of free pages before them. */
  ghost predicate FillVerdict(m: Machine, m': Machine, s: Fill, b: nat, n: nat) {
    var free := FreeCount(m.used);
    && (s == Done(true) <==> free >= Need(m, b, n))
    && (s == Done(true) ==> FreeCount(m'.used) == free - Need(m, b, n) && Grown(m, m', b, n))
    && (n > 0 ==> (s == Done(false) <==> Need(m, b, n - 1) < free < Need(m, b, n)))
    && (s == Done(false) ==> n > 0 && WritablePages(m', b, n - 1)
                             && WindowMap(m', b + n - 1) == WindowMap(m, b + n - 1))
    && (n == 0 || free == 0 ==> m' == m)
  }

  /** One round of the loop, by the number of free pages before it. */
  lemma CostRound(m: Machine, j: nat, fixed: set<nat>)
    requires WindowInv(m, fixed) && j < |m.used|
    ensures var (used, r) := PmmSpec.Malloc(m.used, PAGE_SIZE);
            if r.None? then FreeCount(m.used) == 0
            else
              var (m', ok) := MapPage(m.(used := used), PageAddr(j), r.value, WRITABLE);
              FreeCount(m.used) > 0 && RoundVerdict(m, m', Done(ok), j)
  {
    hide WindowInv, MapPage, FreeCount, RoundVerdict;
    NoFreePage(m.used);
    FreshPage(m.used);
    FillRound(m, j, fixed);
    var (used, r) := PmmSpec.Malloc(m.used, PAGE_SIZE);
    if r.Some? {
      MarkedRound(m, j, r.value / PAGE_SIZE, fixed);
      MappedRound(m, m.(used := used), j, r.value);
    }
  }

  /** Taking the page for the data costs one page and no table. */
  lemma MarkedRound(m: Machine, j: nat, f: nat, fixed: set<nat>)
    requires WindowInv(m, fixed) && j < |m.used| && f < |m.used| && !m.used[f]
    ensures var m1 := m.(used := m.used[f := true]);
            && Inv(m1) && !WindowMap(m1, j).Huge? && FreeCount(m1.used) == FreeCount(m.used) - 1
            && forall p: seq<Index> :: TableAt(m1, p) == TableAt(m, p)
  {
    var u: PageBits := m.used[f := true];
    BitsOnly(m, u);
    MarkCosts(m.used, f);
    hide Inv, Translate, FreeCount, TableAt, DataFrame, Tables, PaidFor, UsedSet, PathWritable, IsTable;
    MarkFrame(m, f, fixed);
  }

  /** Mapping the page, with `m1` the machine after its frame was taken. */
  lemma MappedRound(m: Machine, m1: Machine, j: nat, physAddr: nat)
    requires Inv(m1) && !WindowMap(m1, j).Huge? && FreeCount(m1.used) == FreeCount(m.used) - 1
    requires forall p: seq<Index> :: TableAt(m1, p) == TableAt(m, p)
    requires var (m', ok) := MapPage(m1, PageAddr(j), physAddr, WRITABLE);
             SameExcept(m, m', PageAddr(j)) && (!ok ==> WindowMap(m', j) == WindowMap(m, j))
    ensures var (m', ok) := MapPage(m1, PageAddr(j), physAddr, WRITABLE);
            RoundVerdict(m, m', Done(ok), j)
  {
    hide Inv, Translate, FreeCount, TableAt, MapPage, SameExcept, MissingOn, TablesAlong;
    assert WindowMap(m1, j) == Translate(m1, Path(PageAddr(j))) && WindowPath(j) == Path(PageAddr(j));
    hide WindowMap, Path, PageAddr;
    MapPageSucceeds(m1, PageAddr(j), physAddr, WRITABLE);
    MapPageTables(m1, PageAddr(j), physAddr, WRITABLE);
    SameTablesMissing(m, m1, WindowPath(j), MapPage(m1, PageAddr(j), physAddr, WRITABLE).0);
    MissingCount(m1, WindowPath(j));
  }

  lemma SameTablesMissing(m: Machine, m1: Machine, q: seq<Index>, m2: Machine)
    requires |q| == 4 && forall p: seq<Index> :: TableAt(m1, p) == TableAt(m, p)
    ensures MissingOn(m1, q) == MissingOn(m, q)
    ensures TablesAlong(m1, m2, q) ==> TablesAlong(m, m2, q)
  {
    hide TableAt;
  }

  /** The loop maps everything exactly when the free pages suffice for the pages and their missing tables. */
  lemma {:induction false} FillCost(m: Machine, b: nat, n: nat, fixed: set<nat>)
    requires WindowInv(m, fixed) && b + n <= |m.used|
    ensures var (m', s) := FillRounds(m, b, n);
            FillVerdict(m, m', s, b, n)
  {
    hide FillVerdict, WindowInv, MapPage, FreeCount, Filled, RoundVerdict, PaidFor, SameExcept, Need;
    if n == 0 {
      NothingNeeded(m, b);
    } else {
      FillCost(m, b, n - 1, fixed);
      FillRoundsOutcome(m, b, n - 1, fixed);
      var (m1, s) := FillRounds(m, b, n - 1);
      var (m', s') := FillRounds(m, b, n);
      FilledSize(m, m1, s, b, n - 1);
      WindowSize(m, fixed);
      CostRound(m1, b + n - 1, fixed);
      if s == Done(true) {
        assert b + n - 1 < WINDOW_PAGES;
        VerdictStep(m, m1, m', s', b, n - 1);
      } else {
        VerdictStuck(m, m1, s, b, n - 1);
      }
    }
  }

  /** The round after `n` successful ones. */
  lemma VerdictStep(m: Machine, m1: Machine, m2: Machine, s: Fill, b: nat, n: nat)
    requires FillVerdict(m, m1, Done(true), b, n) && Filled(m, m1, Done(true), b, n) && b + n < WINDOW_PAGES
    requires FreeCount(m1.used) == 0 ==> s == Exhausted && m2 == m1
    requires FreeCount(m1.used) > 0 ==> RoundVerdict(m1, m2, s, b + n)
    ensures FillVerdict(m, m2, s, b, n + 1)
  {
    hide FreeCount, WindowMap, WritablePages, Grown, OnlyWindow, PaidFor, RoundVerdict, MissingSet, MissingOn,
      TablesAlong;
    NeedGrows(m, b, n);
    NextMissing(m, m1, b, n);
    if FreeCount(m1.used) > 0 {
      RoundParts(m1, m2, s, b + n);
      if s == Done(true) {
        GrownStep(m, m1, m2, b, n);
      } else {
        EarlierPagesSame(m1, m2, b, n);
        StillWritable(m1, m2, b, n);
        OnlyWindowKeeps(m, m1, b, n, b + n);
      }
    }
  }

  /** What one round does when there is a page for the data. */
  ghost predicate RoundVerdict(m: Machine, m': Machine, s: Fill, j: nat) {
    var free, q := FreeCount(m.used), WindowPath(j);
    && s.Done? && SameExcept(m, m', PageAddr(j))
    && (s.ok <==> free > |MissingOn(m, q)|)
    && (s.ok ==> FreeCount(m'.used) == free - 1 - |MissingOn(m, q)| && TablesAlong(m, m', q))
    && (!s.ok ==> WindowMap(m', j) == WindowMap(m, j))
  }

  lemma RoundParts(m: Machine, m': Machine, s: Fill, j: nat)
    requires RoundVerdict(m, m', s, j)
    ensures s.Done? && SameExcept(m, m', PageAddr(j))
    ensures s.ok <==> FreeCount(m.used) > |MissingOn(m, WindowPath(j))|
    ensures s.ok ==> FreeCount(m'.used) == FreeCount(m.used) - 1 - |MissingOn(m, WindowPath(j))|
    ensures s.ok ==> TablesAlong(m, m', WindowPath(j))
    ensures !s.ok ==> WindowMap(m', j) == WindowMap(m, j)
  {
  }

  lemma StillWritable(m1: Machine, m2: Machine, b: nat, n: nat)
    requires WritablePages(m1, b, n) && forall j: nat :: b <= j < b + n ==> WindowMap(m2, j) == WindowMap(m1, j)
    ensures WritablePages(m2, b, n)
  {
    hide WindowMap;
  }

  lemma NothingNeeded(m: Machine, b: nat)
    ensures Need(m, b, 0) == 0 && FillVerdict(m, m, Done(true), b, 0)
  {
  }

  /** After a round that failed no page is left, and the next round gives up. */
  lemma VerdictStuck(m: Machine, m1: Machine, s: Fill, b: nat, n: nat)
    requires FillVerdict(m, m1, s, b, n) && Filled(m, m1, s, b, n) && s != Done(true)
    ensures FreeCount(m1.used) == 0 && FillVerdict(m, m1, Exhausted, b, n + 1)
  {
    hide FreeCount, WindowMap, WritablePages, Grown, OnlyWindow, PaidFor;
    NeedGrows(m, b, n);
    assert MissingSet(m, b, 0) == {};
  }

  lemma NeedGrows(m: Machine, b: nat, n: nat)
    ensures Need(m, b, n) < Need(m, b, n + 1)
  {
    hide MissingOn;
    SubsetSize(MissingSet(m, b, n), MissingSet(m, b, n + 1));
  }

  // ----- vmm_malloc_pages -----

  /** The free pages that the call finds are enough for the pages of the run and their missing tables. */
  ghost predicate Affordable(k: Kernel, b: nat, n: nat) {
    FreeCount(k.m.used) >= Need(k.m, b, n)
  }

  /** They run out exactly while the tables of the last page are created. */
  ghost predicate ShortOfLastTables(k: Kernel, b: nat, n: nat)
    requires n > 0
  {
    Need(k.m, b, n - 1) < FreeCount(k.m.used) < Need(k.m, b, n)
  }

  /** What a failing call leaves behind. */
  ghost predicate FailureResult(k: Kernel, k': Kernel, b: nat, n: nat)
    requires n > 0
  {
    && FreeCount(k'.m.used) == 0
    && (k' == k <==> FreeCount(k.m.used) == 0)
    && (k'.m.used == k.m.used <==> FreeCount(k.m.used) == 0)
    && (if ShortOfLastTables(k, b, n) then
          && k'.rsv == WriteRange(k.rsv, b, n, true)
          && WritablePages(k'.m, b, n - 1) && WindowMap(k'.m, b + n - 1) == WindowMap(k.m, b + n - 1)
        else k'.rsv == k.rsv)
  }

  /**
   * `vmm_malloc_pages` succeeds if and only if there is a run of enough unreserved pages and the free physical pages
   * cover the pages of the lowest such run and the tables that they lack. When they do not, none is left afterwards;
   * the call changes nothing exactly when none was free before; and the run stays reserved, although the call
   * reports failure, exactly when the free pages run out while the last page's tables are created.
   */
  lemma MallocSucceedsIff(k: Kernel, byteAmount: nat, fixed: set<nat>)
    requires KernelInv(k, fixed)
    ensures var n := DivideRoundUp(byteAmount, PAGE_SIZE);
            var (k', addr) := Malloc(k, byteAmount);
            match FirstRun(k.rsv, n)
            case None => addr == 0 && k' == k
            case Some(b) => n > 0 && (addr != 0 <==> Affordable(k, b, n)) && (addr == 0 ==> FailureResult(k, k', b, n))
  {
    var n := DivideRoundUp(byteAmount, PAGE_SIZE);
    hide WindowInv, FillVerdict, Filled, FirstRun, FillRounds, FailureResult, Affordable, Malloc, DivideRoundUp;
    if FirstRun(k.rsv, n).None? {
      NoRunNoChange(k, byteAmount);
    } else {
      var b := FirstRun(k.rsv, n).value;
      RunBounds(k.rsv, n);
      FillCost(k.m, b, n, fixed);
      FillRoundsOutcome(k.m, b, n, fixed);
      var (m, s) := FillRounds(k.m, b, n);
      MallocOfFill(k, byteAmount, m, s);
      VerdictMeans(k, m, s, b, n);
      if s != Done(true) {
        FailureFrom(k, Malloc(k, byteAmount).0, b, n, m, s);
      }
    }
  }

  lemma FailureFrom(k: Kernel, k': Kernel, b: nat, n: nat, m: Machine, s: Fill)
    requires n > 0 && WriteRange(k.rsv, b, n, true) != k.rsv
    requires k' == Kernel(m, if s.Exhausted? then k.rsv else WriteRange(k.rsv, b, n, true)) && s != Done(true)
    requires s == Done(false) <==> ShortOfLastTables(k, b, n)
    requires FreeCount(m.used) == 0 && (FreeCount(k.m.used) == 0 ==> m == k.m && s == Exhausted)
    requires s == Done(false) ==> WritablePages(m, b, n - 1) && WindowMap(m, b + n - 1) == WindowMap(k.m, b + n - 1)
    ensures FailureResult(k, k', b, n)
  {
    hide FreeCount, WindowMap, WritablePages, ShortOfLastTables, WriteRange;
  }

  lemma RunBounds(bits: seq<bool>, n: nat)
    requires FirstRun(bits, n).Some?
    ensures n > 0 && FirstRun(bits, n).value + n <= |bits|
    ensures !bits[FirstRun(bits, n).value]
    ensures WriteRange(bits, FirstRun(bits, n).value, n, true) != bits
  {
    var b := FirstRun(bits, n).value;
    assert IsFreeRun(bits, b, n);
    assert WriteRange(bits, b, n, true)[b];
  }

  lemma VerdictMeans(k: Kernel, m: Machine, s: Fill, b: nat, n: nat)
    requires n > 0 && FillVerdict(k.m, m, s, b, n) && Filled(k.m, m, s, b, n)
    ensures s == Done(true) <==> Affordable(k, b, n)
    ensures s == Done(false) <==> ShortOfLastTables(k, b, n)
    ensures s != Done(true) ==> FreeCount(m.used) == 0
    ensures FreeCount(k.m.used) == 0 ==> m == k.m && s == Exhausted
    ensures s == Done(false) ==> WritablePages(m, b, n - 1) && WindowMap(m, b + n - 1) == WindowMap(k.m, b + n - 1)
  {
    hide Need, FreeCount, WindowMap, Grown, PaidFor, OnlyWindow;
    NeedGrows(k.m, b, n - 1);
    assert FreeCount(k.m.used) == 0 ==> !(Need(k.m, b, n - 1) < 0);
  }

  /**
   * A run that a failing call left reserved cannot be given back: freeing it reports failure, clears the bits of all
   * its pages but the last, and the last page stays reserved. For a run of one page nothing is cleared.
   */
  lemma LeakedRunStays(k: Kernel, byteAmount: nat, b: nat, n: nat, fixed: set<nat>)
    requires KernelInv(k, fixed) && n > 0 && n == DivideRoundUp(byteAmount, PAGE_SIZE)
    requires FirstRun(k.rsv, n) == Some(b) && ShortOfLastTables(k, b, n)
    ensures var (k1, addr) := Malloc(k, byteAmount);
            var (k2, ok) := Free(k1, PageAddr(b), byteAmount);
            && addr == 0 && !ok
            && k1.rsv == WriteRange(k.rsv, b, n, true)
            && k2.rsv == WriteRange(k1.rsv, b, n - 1, false)
            && b + n <= |k2.rsv| && k2.rsv[b + n - 1]
  {
    hide Malloc, FirstRun, DivideRoundUp, WindowMap, WritablePages, Free, KernelInv, FailureResult, ShortOfLastTables,
      MallocResult, Affordable, PageAddr, WriteRange;
    RunBounds(k.rsv, n);
    MallocSucceedsIff(k, byteAmount, fixed);
    MallocOutcome(k, byteAmount, fixed);
    NotAffordable(k, b, n);
    LastPageUnmapped(k, b, n);
    var (k1, addr) := Malloc(k, byteAmount);
    LeakParts(k, k1, b, n);
    FreeOfLeaked(k1, b, byteAmount, fixed);
    StaysMarked(k.rsv, b, n);
  }

  /** A page that is mapped has its tables already, so they cannot run out while those are created. */
  lemma LastPageUnmapped(k: Kernel, b: nat, n: nat)
    requires n > 0 && ShortOfLastTables(k, b, n)
    ensures !WindowMap(k.m, b + n - 1).Page?
  {
    hide FreeCount, Need, WindowMap;
    MappedNeedsNoTables(k.m, b, n);
  }

  lemma MappedNeedsNoTables(m: Machine, b: nat, n: nat)
    requires n > 0
    ensures WindowMap(m, b + n - 1).Page? ==> Need(m, b, n) == Need(m, b, n - 1) + 1
  {
    hide TableAt, Translate, WindowPath;
    var q := WindowPath(b + n - 1);
    if WindowMap(m, b + n - 1).Page? {
      TablesOfMapped(m, q, 1);
      TablesOfMapped(m, q, 2);
      TablesOfMapped(m, q, 3);
      assert MissingOn(m, q) == {};
      assert MissingSet(m, b, n) == MissingSet(m, b, n - 1);
    }
  }

  lemma NotAffordable(k: Kernel, b: nat, n: nat)
    requires n > 0 && ShortOfLastTables(k, b, n)
    ensures !Affordable(k, b, n)
  {
    hide FreeCount, Need;
  }

  lemma LeakParts(k: Kernel, k1: Kernel, b: nat, n: nat)
    requires n > 0 && FailureResult(k, k1, b, n) && ShortOfLastTables(k, b, n)
    ensures k1.rsv == WriteRange(k.rsv, b, n, true) && |k1.rsv| == |k.rsv|
    ensures WritablePages(k1.m, b, n - 1) && WindowMap(k1.m, b + n - 1) == WindowMap(k.m, b + n - 1)
  {
    hide FreeCount, WindowMap, WritablePages, ShortOfLastTables;
  }

  /** Freeing a run of which all pages but the last are mapped. */
  lemma FreeOfLeaked(k: Kernel, b: nat, byteAmount: nat, fixed: set<nat>)
    requires var n := DivideRoundUp(byteAmount, PAGE_SIZE);
             && KernelInv(k, fixed) && n > 0 && b + n <= |k.rsv|
             && WritablePages(k.m, b, n - 1) && !WindowMap(k.m, b + n - 1).Page?
    ensures PageAddr(b) >= VMM_BASE
    ensures var (k', ok) := Free(k, PageAddr(b), byteAmount);
            !ok && k'.rsv == WriteRange(k.rsv, b, DivideRoundUp(byteAmount, PAGE_SIZE) - 1, false)
  {
    hide WindowMap, ReleaseRounds, KernelInv, WritablePages, MappedCount, DivideRoundUp, WriteRange, OnlyWindow;
    PageOfAddr(b);
    ReleaseRoundsSafe(k, PageAddr(b), DivideRoundUp(byteAmount, PAGE_SIZE), fixed);
    AllButLast(k.m, b, DivideRoundUp(byteAmount, PAGE_SIZE));
  }

  lemma PageOfAddr(b: nat)
    ensures PageAddr(b) >= VMM_BASE && PageOf(PageAddr(b)) == b
  {
  }

  lemma AllButLast(m: Machine, b: nat, n: nat)
    requires n > 0 && WritablePages(m, b, n - 1) && !WindowMap(m, b + n - 1).Page?
    ensures MappedCount(m, b, n) == n - 1
  {
    hide WindowMap;
    assert MappedPages(m, b, n - 1);
  }

  lemma StaysMarked(bits: seq<bool>, b: nat, n: nat)
    requires n > 0 && b + n <= |bits|
    ensures WriteRange(WriteRange(bits, b, n, true), b, n - 1, false)[b + n - 1]
  {
  }

  // ----- a machine on which the run is lost -----

  /** Three physical pages: page 0 and the root table are taken, and one page is free. */
  ghost function SmallMachine(): Machine {
    Machine(1, seq(FRAMES, _ => ClearedTable()), [true, true, false])
  }

  ghost function SmallKernel(): Kernel {
    Kernel(SmallMachine(), [false, false, false])
  }

  lemma SmallIsReady()
    ensures KernelInv(SmallKernel(), {0})
    ensures forall j: nat :: j < 3 ==> WindowMap(SmallMachine(), j) == Unmapped
  {
    var m := SmallMachine();
    EmptyRoot();
    hide SmallMachine, Inv, ClearedTable, WindowWritable, Translate;
    EmptyTreeIsReady(m);
    EmptyWindowInv(m, {0});
  }

  lemma EmptyRoot()
    ensures var m := SmallMachine();
            m.frames[m.root] == ClearedTable() && m.used == [true, true, false] && m.root == 1
  {
  }

  lemma {:induction false} NoTables(p: seq<Index>)
    requires p != []
    ensures TableAt(SmallMachine(), p) == None
  {
    EmptyRoot();
    hide SmallMachine;
    OnlyRoot(SmallMachine(), p);
  }

  lemma SmallNeed()
    ensures Need(SmallMachine(), 0, 0) == 0 && Need(SmallMachine(), 0, 1) == 4
  {
    var m, q := SmallMachine(), WindowPath(0);
    NoTables(q[..1]);
    NoTables(q[..2]);
    NoTables(q[..3]);
    hide SmallMachine, TableAt, WindowPath;
    MissingCount(m, q);
    assert MissingSet(m, 0, 1) == MissingSet(m, 0, 0) + MissingOn(m, q);
    assert MissingTables(m, q, 2) == 1 + MissingTables(m, q, 3);
  }

  lemma SmallBits()
    ensures FreeCount([true, true, false]) == 1
    ensures FirstRun([false, false, false], 1) == Some(0) && DivideRoundUp(PAGE_SIZE, PAGE_SIZE) == 1
    ensures WriteRange([false, false, false], 0, 1, true) == [true, false, false]
    ensures WriteRange([true, false, false], 0, 0, false) == [true, false, false]
  {
    assert UsedSet([true, true, false]) == {0, 1};
    assert IsFreeRun([false, false, false], 0, 1);
    PagesOfBytes(1);
  }

  /** Asking for one page there fails, leaves page 0 of the window reserved, and freeing it clears nothing. */
  lemma LeakExample()
    ensures var k := SmallKernel();
            var (k1, addr) := Malloc(k, PAGE_SIZE);
            var (k2, ok) := Free(k1, PageAddr(0), PAGE_SIZE);
            && KernelInv(k, {0}) && FreeCount(k.m.used) == 1
            && addr == 0 && k1.rsv == [true, false, false]
            && !ok && k2.rsv == [true, false, false]
  {
    SmallIsReady();
    SmallNeed();
    SmallBits();
    EmptyRoot();
    var k := SmallKernel();
    assert k.m == SmallMachine() && k.rsv == [false, false, false];
    hide SmallKernel, SmallMachine, Malloc, Free, KernelInv, WindowMap, FirstRun, FreeCount, Need, WriteRange,
      DivideRoundUp, PageAddr;
    LeakedRunStays(k, PAGE_SIZE, 0, 1, {0});
  }
}
