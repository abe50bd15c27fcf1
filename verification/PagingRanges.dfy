/** `map_pages` and `free_pages`: whole ranges as updates of the flat map. */
module PageRanges {
  import opened Arith
  import opened BitRuns
  import opened PageTables

  function PagePath(v: nat, i: nat): (p: seq<Index>)
    ensures |p| == 4
  {
    Path(v + i * PAGE_SIZE)
  }

  /** `q` is the path of one of the `n` pages from `v`. */
  ghost predicate InPages(q: seq<Index>, v: nat, n: nat) {
    exists i: nat :: i < n && q == PagePath(v, i)
  }

  ghost predicate NoHuge(m: Machine, v: nat, n: nat) {
    forall i: nat :: i < n ==> !Translate(m, PagePath(v, i)).Huge?
  }

  ghost predicate SameOutside(m: Machine, m': Machine, v: nat, n: nat) {
    && (forall q: seq<Index> :: |q| == 4 && !InPages(q, v, n) ==> Translate(m', q) == Translate(m, q))
    && SameRights(m, m')
  }

  function MappedTo(m: Machine, v: nat, p: nat, i: nat, flags: Flags): Mapping {
    Page((p + i * PAGE_SIZE) / PAGE_SIZE % FRAMES, PathWritable(m, PagePath(v, i)) && flags.write, flags.cacheDisable)
  }

  /** Every page of the range has its own frame or is as before, and nothing outside the range changed. */
  ghost predicate RangeMapped(m: Machine, m': Machine, v: nat, p: nat, flags: Flags, n: nat, all: bool) {
    && SameOutside(m, m', v, n)
    && (forall i: nat :: i < n ==>
          || Translate(m', PagePath(v, i)) == MappedTo(m, v, p, i, flags)
          || (!all && Translate(m', PagePath(v, i)) == Translate(m, PagePath(v, i))))
  }

  lemma RangeMappedStep(m: Machine, m1: Machine, m2: Machine, v: nat, p: nat, flags: Flags, k: nat, ok1: bool,
                        ok2: bool)
    requires k < PAGES_48 && RangeMapped(m, m1, v, p, flags, k, ok1) && SameExcept(m1, m2, v + k * PAGE_SIZE)
    requires Translate(m2, PagePath(v, k))
             == if ok2 then MappedTo(m1, v, p, k, flags) else Translate(m1, PagePath(v, k))
    ensures RangeMapped(m, m2, v, p, flags, k + 1, ok1 && ok2)
  {
    hide Translate, PathWritable;
    LastPageOutside(v, k);
    assert MappedTo(m1, v, p, k, flags) == MappedTo(m, v, p, k, flags);
    hide MappedTo;
    forall q: seq<Index> | |q| == 4 && !InPages(q, v, k + 1)
      ensures Translate(m2, q) == Translate(m, q)
    {
      assert q != PagePath(v, k);
      assert !InPages(q, v, k);
    }
    forall i: nat | i < k + 1
      ensures Translate(m2, PagePath(v, i)) == MappedTo(m, v, p, i, flags)
              || (!(ok1 && ok2) && Translate(m2, PagePath(v, i)) == Translate(m, PagePath(v, i)))
    {
      if i < k {
        assert PagePath(v, i) != PagePath(v, k);
      }
    }
  }

  /**
   * `map_pages`: true means that every page of the range goes to its own frame; when it is false the
   * physical pages have run out. Either way nothing outside the range changed.
   */
  lemma {:induction false} MapRoundsRefine(m: Machine, v: nat, p: nat, flags: Flags, n: nat)
    requires Inv(m) && n <= PAGES_48 && NoHuge(m, v, n)
    ensures var (m', ok) := MapRounds(m, v, p, flags, n);
            && Inv(m') && PaidForTables(m, m') && RangeMapped(m, m', v, p, flags, n, ok)
            && (!ok ==> FreeCount(m'.used) == 0)
  {
    hide Inv, PaidForTables, MapPage, Translate, RangeMapped, FreeCount, MissingTables, SameExcept;
    if n == 0 {
      PaidForNothing(m);
      NoneMapped(m, v, p, flags);
    } else {
      var k := n - 1;
      MapRoundsRefine(m, v, p, flags, k);
      var (m1, ok1) := MapRounds(m, v, p, flags, k);
      NextUntouched(m, m1, v, p, flags, k, ok1);
      MapPageRefines(m1, v + k * PAGE_SIZE, p + k * PAGE_SIZE, flags);
      MapPageSucceeds(m1, v + k * PAGE_SIZE, p + k * PAGE_SIZE, flags);
      var (m2, ok2) := MapPage(m1, v + k * PAGE_SIZE, p + k * PAGE_SIZE, flags);
      PaidForTablesTransitive(m, m1, m2);
      PaidKeepsEmpty(m1, m2);
      RangeMappedStep(m, m1, m2, v, p, flags, k, ok1, ok2);
    }
  }

  lemma NoneMapped(m: Machine, v: nat, p: nat, flags: Flags)
    ensures RangeMapped(m, m, v, p, flags, 0, true)
  {
  }

  lemma NextUntouched(m: Machine, m1: Machine, v: nat, p: nat, flags: Flags, k: nat, ok: bool)
    requires k < PAGES_48 && RangeMapped(m, m1, v, p, flags, k, ok)
    ensures Translate(m1, PagePath(v, k)) == Translate(m, PagePath(v, k))
  {
    LastPageOutside(v, k);
  }

  lemma PaidForNothing(m: Machine)
    ensures PaidForTables(m, m)
  {
  }

  lemma PaidKeepsEmpty(m: Machine, m': Machine)
    requires PaidForTables(m, m')
    ensures FreeCount(m'.used) <= FreeCount(m.used)
  {
    UsedSetBound(m'.used);
    SubsetSize(UsedSet(m.used), UsedSet(m'.used));
  }

  /** The next page of a range of at most 2^36 pages is not one of the earlier ones. */
  lemma LastPageOutside(v: nat, k: nat)
    requires k < PAGES_48
    ensures !InPages(PagePath(v, k), v, k)
    ensures forall i: nat :: i < k ==> PagePath(v, i) != PagePath(v, k)
  {
    forall i: nat | i < k
      ensures PagePath(v, i) != PagePath(v, k)
    {
      PagesOfRangeDiffer(v, i, k);
    }
  }

  /** `free_pages` over a range that is mapped throughout: the range is gone, no page was taken or returned. */
  lemma {:induction false} FreeRoundsOfMapped(m: Machine, v: nat, n: nat)
    requires Inv(m) && n <= PAGES_48 && forall i: nat :: i < n ==> Translate(m, PagePath(v, i)).Page?
    ensures var (m', ok) := FreeRounds(m, v, n);
            && ok && Inv(m') && m'.root == m.root && m'.used == m.used && Tables(m') == Tables(m)
            && SameOutside(m, m', v, n)
            && forall i: nat :: i < n ==> Translate(m', PagePath(v, i)) == Unmapped
  {
    hide Inv, PaidForTables, FreePage, Translate, Tables, SameRights, SameOutside, SameExcept, PagePath;
    if n == 0 {
      SameOutsideNothing(m, v);
    } else {
      var k := n - 1;
      FreeRoundsOfMapped(m, v, k);
      var (m1, ok1) := FreeRounds(m, v, k);
      PageKept(m, m1, v, k);
      FreePageRefines(m1, v + k * PAGE_SIZE);
      var (m2, ok2) := FreePage(m1, v + k * PAGE_SIZE);
      FreedStep(m, m1, m2, v, k);
    }
  }

  lemma SameOutsideNothing(m: Machine, v: nat)
    ensures SameOutside(m, m, v, 0)
  {
  }

  lemma PageKept(m: Machine, m1: Machine, v: nat, k: nat)
    requires k < PAGES_48 && SameOutside(m, m1, v, k)
    ensures Translate(m1, PagePath(v, k)) == Translate(m, PagePath(v, k)) && PagePath(v, k) == Path(v + k * PAGE_SIZE)
  {
    hide Translate;
    LastPageOutside(v, k);
  }

  lemma FreedStep(m: Machine, m1: Machine, m2: Machine, v: nat, k: nat)
    requires k < PAGES_48 && SameOutside(m, m1, v, k) && SameExcept(m1, m2, v + k * PAGE_SIZE)
    requires Translate(m2, PagePath(v, k)) == Unmapped
             && forall i: nat :: i < k ==> Translate(m1, PagePath(v, i)) == Unmapped
    ensures SameOutside(m, m2, v, k + 1) && forall i: nat :: i < k + 1 ==> Translate(m2, PagePath(v, i)) == Unmapped
  {
    hide Translate, PathWritable;
    LastPageOutside(v, k);
    forall q: seq<Index> | |q| == 4 && !InPages(q, v, k + 1)
      ensures Translate(m2, q) == Translate(m, q)
    {
      assert q != PagePath(v, k);
      assert !InPages(q, v, k);
    }
    forall i: nat | i < k + 1
      ensures Translate(m2, PagePath(v, i)) == Unmapped
    {
      if i < k {
        assert PagePath(v, i) != PagePath(v, k);
      }
    }
  }

  /** The number of pages of a range of at most 2^48 bytes is the ceiling. */
  lemma PagesOfSize(requiredSize: nat, n: nat)
    requires IsCeiling(requiredSize, PAGE_SIZE, n) && n <= PAGES_48
    ensures DivideRoundUp(requiredSize, PAGE_SIZE) == n
  {
  }

  /**
   * `map_pages`, by the size asked for: true means that page i of the range goes to the i-th page from `p`, writable
   * as requested and as its path allows; when it is false the physical pages have run out. Nothing outside the range
   * changes.
   */
  lemma MapPagesRefines(m: Machine, v: nat, p: nat, flags: Flags, requiredSize: nat, n: nat)
    requires Inv(m) && IsCeiling(requiredSize, PAGE_SIZE, n) && n <= PAGES_48 && NoHuge(m, v, n)
    ensures var (m', ok) := MapPages(m, v, p, flags, requiredSize);
            && Inv(m') && PaidForTables(m, m') && SameOutside(m, m', v, n)
            && (ok ==> forall i: nat :: i < n ==>
                  Translate(m', PagePath(v, i)) == Page((p / PAGE_SIZE + i) % FRAMES,
                                                        PathWritable(m, PagePath(v, i)) && flags.write,
                                                        flags.cacheDisable))
            && (!ok ==> FreeCount(m'.used) == 0)
  {
    hide Inv, PaidForTables, Translate, SameOutside, FreeCount, MapRounds, PathWritable, PagePath, RangeMapped,
      DivideRoundUp, NoHuge, IsCeiling;
    PagesOfSize(requiredSize, n);
    MapRoundsRefine(m, v, p, flags, n);
    var (m', ok) := MapPages(m, v, p, flags, requiredSize);
    MappedParts(m, m', v, p, flags, n, ok);
  }

  lemma MappedParts(m: Machine, m': Machine, v: nat, p: nat, flags: Flags, n: nat, all: bool)
    requires RangeMapped(m, m', v, p, flags, n, all)
    ensures SameOutside(m, m', v, n)
    ensures all ==> forall i: nat :: i < n ==>
              Translate(m', PagePath(v, i)) == Page((p / PAGE_SIZE + i) % FRAMES,
                                                    PathWritable(m, PagePath(v, i)) && flags.write, flags.cacheDisable)
  {
    hide Translate, SameOutside, PathWritable, PagePath;
    forall i: nat | i < n && all
      ensures Translate(m', PagePath(v, i)) == Page((p / PAGE_SIZE + i) % FRAMES,
                                                    PathWritable(m, PagePath(v, i)) && flags.write, flags.cacheDisable)
    {
      ShiftedPage(p, i);
    }
  }

  /**
   * `free_pages` over any range: true means that all of it is unmapped; when it is false the physical pages have run
   * out for tables that a page lacked. Nothing outside the range changes.
   */
  lemma {:induction false} FreeRoundsRefine(m: Machine, v: nat, n: nat)
    requires Inv(m) && n <= PAGES_48 && NoHuge(m, v, n)
    ensures var (m', ok) := FreeRounds(m, v, n);
            && Inv(m') && PaidForTables(m, m') && SameOutside(m, m', v, n)
            && (ok ==> forall i: nat :: i < n ==> Translate(m', PagePath(v, i)) == Unmapped)
            && (!ok ==> FreeCount(m'.used) == 0)
  {
    hide Inv, PaidForTables, FreePage, Translate, SameOutside, SameExcept, PagePath, FreeCount, MissingTables;
    if n == 0 {
      PaidForNothing(m);
      SameOutsideNothing(m, v);
    } else {
      var k := n - 1;
      FreeRoundsRefine(m, v, k);
      var (m1, ok1) := FreeRounds(m, v, k);
      PageKept(m, m1, v, k);
      FreePageRefines(m1, v + k * PAGE_SIZE);
      FreePageFails(m1, v + k * PAGE_SIZE);
      var (m2, ok2) := FreePage(m1, v + k * PAGE_SIZE);
      PaidForTablesTransitive(m, m1, m2);
      PaidKeepsEmpty(m1, m2);
      OutsideStep(m, m1, m2, v, k);
      if ok1 && ok2 {
        FreedStep(m, m1, m2, v, k);
      }
    }
  }

  lemma FreePageFails(m: Machine, v: nat)
    requires Inv(m) && !Translate(m, Path(v)).Huge?
    ensures !FreePage(m, v).1 ==> FreeCount(FreePage(m, v).0.used) == 0
  {
    hide Inv, Translate, PageWalk, FreeCount, MissingTables, Path;
    WalkCost(m, v);
  }

  lemma OutsideStep(m: Machine, m1: Machine, m2: Machine, v: nat, k: nat)
    requires k < PAGES_48 && SameOutside(m, m1, v, k) && SameExcept(m1, m2, v + k * PAGE_SIZE)
    ensures SameOutside(m, m2, v, k + 1)
  {
    hide Translate, PathWritable;
    forall q: seq<Index> | |q| == 4 && !InPages(q, v, k + 1)
      ensures Translate(m2, q) == Translate(m, q)
    {
      assert q != PagePath(v, k);
      assert !InPages(q, v, k);
    }
  }

  lemma FreePagesRefines(m: Machine, v: nat, requiredSize: nat, n: nat)
    requires Inv(m) && IsCeiling(requiredSize, PAGE_SIZE, n) && n <= PAGES_48 && NoHuge(m, v, n)
    ensures var (m', ok) := FreePages(m, v, requiredSize);
            && Inv(m') && PaidForTables(m, m') && SameOutside(m, m', v, n)
            && (ok ==> forall i: nat :: i < n ==> Translate(m', PagePath(v, i)) == Unmapped)
            && (!ok ==> FreeCount(m'.used) == 0)
  {
    hide Inv, Translate, FreeRounds, FreeCount;
    PagesOfSize(requiredSize, n);
    FreeRoundsRefine(m, v, n);
  }

  /** `free_pages` over a range that is mapped throughout succeeds, and takes and returns no page. */
  lemma FreePagesOfMapped(m: Machine, v: nat, requiredSize: nat, n: nat)
    requires Inv(m) && IsCeiling(requiredSize, PAGE_SIZE, n) && n <= PAGES_48
    requires forall i: nat :: i < n ==> Translate(m, PagePath(v, i)).Page?
    ensures var (m', ok) := FreePages(m, v, requiredSize);
            && ok && Inv(m') && m'.used == m.used && Tables(m') == Tables(m) && SameOutside(m, m', v, n)
            && forall i: nat :: i < n ==> Translate(m', PagePath(v, i)) == Unmapped
  {
    hide Inv, Translate, FreeRounds, Tables;
    PagesOfSize(requiredSize, n);
    FreeRoundsOfMapped(m, v, n);
  }

  /** Mapping a range that was unmapped and freeing it again restores the whole flat map. */
  lemma MapThenFree(m: Machine, v: nat, p: nat, flags: Flags, requiredSize: nat)
    requires Inv(m) && DivideRoundUp(requiredSize, PAGE_SIZE) <= PAGES_48
    requires forall i: nat :: i < DivideRoundUp(requiredSize, PAGE_SIZE) ==> Translate(m, PagePath(v, i)) == Unmapped
    requires MapPages(m, v, p, flags, requiredSize).1
    ensures var mapped := MapPages(m, v, p, flags, requiredSize).0;
            var (m', ok) := FreePages(mapped, v, requiredSize);
            ok && Inv(m') && SameTranslation(m, m') && PaidForTables(m, m')
  {
    hide Inv, Translate, MapRounds, FreeRounds, UsedSet, Tables;
    var n := DivideRoundUp(requiredSize, PAGE_SIZE);
    MapRoundsRefine(m, v, p, flags, n);
    var mapped := MapPages(m, v, p, flags, requiredSize).0;
    FreeRoundsOfMapped(mapped, v, n);
    var m' := FreePages(mapped, v, requiredSize).0;
    forall q: seq<Index> | |q| == 4
      ensures Translate(m', q) == Translate(m, q)
    {
      if i: nat :| i < n && q == PagePath(v, i) {
        assert Translate(m', PagePath(v, i)) == Unmapped;
      }
    }
  }
}
