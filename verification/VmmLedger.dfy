/** Where every physical page is, at every moment of a run, and exactly which runs keep that account. */
module VmmLedger {
  import opened Arith
  import opened BitRuns
  import opened PageTables
  import opened VmmSpec
  import opened VmmProofs
  import opened VmmRelease
  import opened VmmRuns
  import opened VmmCosts
  import PmmSpec

  ghost predicate MapsTo(m: Machine, f: nat) {
    exists j: nat :: j < |m.used| && WindowMap(m, j).Page? && WindowMap(m, j).frame == f
  }

  /** The frames behind the mapped pages of the window. */
  ghost function MappedFrames(m: Machine): set<nat> {
    set f: nat | f < FRAMES && MapsTo(m, f)
  }

  ghost predicate OwnedPage(live: map<nat, nat>, j: int) {
    exists st :: st in live && st <= j < st + live[st]
  }

  /** The reserved pages are exactly those of live ranges, and no other page of the window is mapped. */
  ghost predicate Tidy(s: State) {
    && |s.k.rsv| == |s.k.m.used|
    && (forall j :: 0 <= j < |s.k.rsv| ==> (s.k.rsv[j] <==> OwnedPage(s.live, j)))
    && (forall j: nat :: j < |s.k.rsv| && !s.k.rsv[j] ==> WindowMap(s.k.m, j) == Unmapped)
  }

  /** The used pages are those used at first, the new tables and the frames behind mapped pages; these are disjoint. */
  ghost predicate Balanced(m0: Machine, m: Machine) {
    && |m.used| == |m0.used| && Tables(m0) <= Tables(m)
    && UsedSet(m.used) == UsedSet(m0.used) + (Tables(m) - Tables(m0)) + MappedFrames(m)
    && UsedSet(m0.used) !! Tables(m) - Tables(m0)
    && MappedFrames(m) !! UsedSet(m0.used) + Tables(m)
  }

  ghost predicate Ledger(m0: Machine, s: State, fixed: set<nat>) {
    LiveInv(s, fixed) && Tidy(s) && Balanced(m0, s.k.m)
  }

  /**
   * An allocation finds no run of unreserved pages, or enough free physical pages for all of it, or no free page at
   * all.
   */
  ghost predicate Lossless(k: Kernel, op: Op) {
    op.New? ==>
      var n := DivideRoundUp(op.byteAmount, PAGE_SIZE);
      match FirstRun(k.rsv, n)
      case None => true
      case Some(b) => Affordable(k, b, n) || FreeCount(k.m.used) == 0
  }

  ghost predicate LosslessRun(s: State, ops: seq<Op>)
    decreases |ops|
  {
    ops == [] || (Lossless(s.k, ops[0]) && LosslessRun(Step(s, ops[0]), ops[1..]))
  }

  // ----- allocation -----

  /** What a successful allocation tells about the range `b .. b + n`. */
  ghost predicate TookRange(k: Kernel, k': Kernel, b: nat, n: nat) {
    && n > 0 && b + n <= |k.rsv| && |k.rsv| == |k.m.used| == |k'.m.used| <= WINDOW_PAGES
    && (forall j :: b <= j < b + n ==> !k.rsv[j])
    && k'.rsv == WriteRange(k.rsv, b, n, true)
    && OnlyWindow(k.m, k'.m, b, n) && PaidFor(k.m, k'.m, FramesOf(k'.m, b, n))
  }

  lemma MallocTook(k: Kernel, bytes: nat, fixed: set<nat>)
    requires KernelInv(k, fixed) && Malloc(k, bytes).1 != 0
    ensures var n := DivideRoundUp(bytes, PAGE_SIZE);
            var (k', addr) := Malloc(k, bytes);
            && FirstRun(k.rsv, n).Some? && TookRange(k, k', FirstRun(k.rsv, n).value, n)
            && addr == PageAddr(FirstRun(k.rsv, n).value)
  {
    var n := DivideRoundUp(bytes, PAGE_SIZE);
    hide Malloc, WindowInv, OnlyWindow, PaidFor, FramesOf, DivideRoundUp, FreeCount, WritablePages, PageAddr, UsedSet;
    MallocOutcome(k, bytes, fixed);
    WindowSize(k.m, fixed);
    FreeRunOf(k.rsv, n);
    hide FirstRun;
  }

  lemma FreeRunOf(bits: seq<bool>, n: nat)
    ensures var r := FirstRun(bits, n);
            r.Some? ==> n > 0 && r.value + n <= |bits| && forall j :: r.value <= j < r.value + n ==> !bits[j]
  {
    var r := FirstRun(bits, n);
    assert r.Some? ==> IsFreeRun(bits, r.value, n);
  }

  lemma OthersKept(k: Kernel, k': Kernel, b: nat, n: nat)
    requires b + n <= |k.rsv| && |k.rsv| == |k.m.used| <= WINDOW_PAGES && OnlyWindow(k.m, k'.m, b, n)
    ensures forall j: nat :: j < |k.m.used| && !(b <= j < b + n) ==> WindowMap(k'.m, j) == WindowMap(k.m, j)
  {
    hide WindowMap, OnlyWindow;
    forall j: nat | j < |k.m.used| && !(b <= j < b + n)
      ensures WindowMap(k'.m, j) == WindowMap(k.m, j)
    {
      OnlyWindowKeeps(k.m, k'.m, b, n, j);
    }
  }

  lemma NewFrames(m: Machine, m': Machine, b: nat, n: nat)
    requires b + n <= |m.used| == |m'.used|
    requires forall j: nat :: b <= j < b + n ==> WindowMap(m, j) == Unmapped
    requires forall j: nat :: j < |m.used| && !(b <= j < b + n) ==> WindowMap(m', j) == WindowMap(m, j)
    ensures MappedFrames(m') == MappedFrames(m) + FramesOf(m', b, n)
  {
    hide WindowMap, FramesOf;
    forall f: nat | f < FRAMES
      ensures MapsTo(m', f) <==> MapsTo(m, f) || f in FramesOf(m', b, n)
    {
      FramesOfMember(m', b, n, f);
    }
    forall f | f in FramesOf(m', b, n)
      ensures f < FRAMES
    {
      FramesOfMember(m', b, n, f);
    }
    hide MapsTo;
  }

  lemma BalancedTake(m0: Machine, m: Machine, m': Machine, data: set<nat>)
    requires Balanced(m0, m) && PaidFor(m, m', data) && MappedFrames(m') == MappedFrames(m) + data
    ensures Balanced(m0, m')
  {
    hide UsedSet, Tables, MappedFrames;
    assert MappedFrames(m) <= UsedSet(m.used);
  }

  lemma TidyTake(s: State, k': Kernel, b: nat, n: nat)
    requires Tidy(s) && TookRange(s.k, k', b, n)
    requires forall j: nat :: j < |s.k.m.used| && !(b <= j < b + n) ==> WindowMap(k'.m, j) == WindowMap(s.k.m, j)
    requires forall st :: st in s.live ==> s.live[st] > 0 && st + s.live[st] <= |s.k.rsv|
    ensures Tidy(State(k', s.live[b := n]))
  {
    hide WindowMap, OnlyWindow, PaidFor, FramesOf;
    var live' := s.live[b := n];
    assert b in s.live ==> OwnedPage(s.live, b);
    forall j | 0 <= j < |k'.rsv|
      ensures k'.rsv[j] <==> OwnedPage(live', j)
    {
      if b <= j < b + n {
        assert b in live' && b <= j < b + live'[b];
      } else if st :| st in s.live && st <= j < st + s.live[st] {
        assert st in live' && live'[st] == s.live[st];
      }
    }
  }

  lemma LiveBoundsOf(s: State, fixed: set<nat>)
    requires LiveInv(s, fixed)
    ensures KernelInv(s.k, fixed)
    ensures forall st :: st in s.live ==> s.live[st] > 0 && st + s.live[st] <= |s.k.rsv|
  {
    hide KernelInv, WritablePages, Disjoint;
  }

  lemma RangeUnmapped(s: State, b: nat, n: nat)
    requires Tidy(s) && b + n <= |s.k.rsv| && forall j :: b <= j < b + n ==> !s.k.rsv[j]
    ensures forall j: nat :: b <= j < b + n ==> WindowMap(s.k.m, j) == Unmapped
  {
    hide WindowMap, OwnedPage;
  }

  lemma TakeStep(m0: Machine, s: State, k': Kernel, b: nat, n: nat, fixed: set<nat>)
    requires Ledger(m0, s, fixed) && TookRange(s.k, k', b, n)
    ensures Tidy(State(k', s.live[b := n])) && Balanced(m0, k'.m)
  {
    hide LiveInv, WindowMap, Balanced, OnlyWindow, PaidFor, FramesOf;
    LiveBoundsOf(s, fixed);
    OthersKept(s.k, k', b, n);
    RangeUnmapped(s, b, n);
    TidyTake(s, k', b, n);
    NewFrames(s.k.m, k'.m, b, n);
    BalancedTake(m0, s.k.m, k'.m, FramesOf(k'.m, b, n));
  }

  /** Such an allocation succeeds, or it fails without changing anything. */
  lemma LosslessMeans(k: Kernel, bytes: nat, fixed: set<nat>)
    requires KernelInv(k, fixed) && Lossless(k, New(bytes))
    ensures Malloc(k, bytes).1 != 0 || Malloc(k, bytes).0 == k
  {
    hide KernelInv, Malloc, FirstRun, DivideRoundUp, Affordable, ShortOfLastTables, WritablePages, WindowMap, FreeCount;
    MallocSucceedsIff(k, bytes, fixed);
  }

  lemma NewLedger(m0: Machine, s: State, bytes: nat, fixed: set<nat>)
    requires Ledger(m0, s, fixed) && Lossless(s.k, New(bytes))
    ensures Ledger(m0, Step(s, New(bytes)), fixed)
  {
    hide LiveInv, Tidy, Balanced, Malloc, TookRange, FirstRun, PageAddr, DivideRoundUp, SamePages, Lossless;
    NewStep(s, bytes, fixed);
    LiveBoundsOf(s, fixed);
    LosslessMeans(s.k, bytes, fixed);
    var (k', addr) := Malloc(s.k, bytes);
    if addr != 0 {
      var n := DivideRoundUp(bytes, PAGE_SIZE);
      MallocTook(s.k, bytes, fixed);
      var b := FirstRun(s.k.rsv, n).value;
      PageOfAddr(b);
      TakeStep(m0, s, k', b, n, fixed);
    }
  }

  // ----- allocations that fail halfway -----

  /** A run that stays reserved although nobody holds it. */
  lemma ReservedByNobody(s: State, k': Kernel, b: nat, n: nat)
    requires Tidy(s) && n > 0 && b + n <= |s.k.rsv| && !s.k.rsv[b] && k'.rsv == WriteRange(s.k.rsv, b, n, true)
    ensures !Tidy(State(k', s.live))
  {
    hide WindowMap, OwnedPage;
    assert k'.rsv[b];
  }

  /** A page that stays mapped although it is not reserved. */
  lemma MappedByNobody(s: State, k': Kernel, b: nat)
    requires Tidy(s) && b < |s.k.rsv| && !s.k.rsv[b] && k'.rsv == s.k.rsv && WindowMap(k'.m, b) != Unmapped
    ensures !Tidy(State(k', s.live))
  {
    hide WindowMap, OwnedPage;
  }

  /** A frame that stays used although it is no table and no page is mapped to it. */
  lemma FrameOfNobody(m0: Machine, m: Machine, m': Machine, f: nat)
    requires Balanced(m0, m) && PaidFor(m, m', {f}) && MappedFrames(m') == MappedFrames(m)
    ensures !Balanced(m0, m')
  {
    hide UsedSet, Tables, MappedFrames;
    assert f in UsedSet(m'.used) && f !in UsedSet(m.used) && f !in Tables(m');
    assert UsedSet(m0.used) <= UsedSet(m.used) && MappedFrames(m) <= UsedSet(m.used);
  }

  lemma SameMapped(m: Machine, m': Machine)
    requires |m'.used| == |m.used| && forall j: nat :: j < |m.used| ==> WindowMap(m', j) == WindowMap(m, j)
    ensures MappedFrames(m') == MappedFrames(m)
  {
    hide WindowMap;
    assert forall f: nat :: MapsTo(m', f) <==> MapsTo(m, f);
  }

  /** The last of `n` rounds. */
  lemma OneRound(m: Machine, b: nat, n: nat)
    requires n > 0
    ensures var (m1, s) := FillRounds(m, b, n - 1);
            var (used, r) := PmmSpec.Malloc(m1.used, PAGE_SIZE);
            FillRounds(m, b, n) ==
              if s.Exhausted? then (m1, s) else if r.None? then (m1, Exhausted)
              else
                var (m2, ok) := MapPage(m1.(used := used), PageAddr(b + n - 1), r.value, WRITABLE);
                (m2, Done(s.ok && ok))
  {
    hide MapPage, PageAddr;
  }

  /** One round that takes a page leaves the earlier pages as they are. */
  lemma RoundKeepsEarlier(m: Machine, b: nat, n: nat, fixed: set<nat>)
    requires WindowInv(m, fixed) && n > 0 && b + n < |m.used|
    ensures var (used, r) := PmmSpec.Malloc(m.used, PAGE_SIZE);
            r.Some? ==>
              WindowMap(MapPage(m.(used := used), PageAddr(b + n), r.value, WRITABLE).0, b) == WindowMap(m, b)
  {
    hide WindowInv, WindowMap, MapPage, SameExcept, PageAddr, FreeCount, PaidFor;
    FillRound(m, b + n, fixed);
    WindowSize(m, fixed);
    var (used, r) := PmmSpec.Malloc(m.used, PAGE_SIZE);
    if r.Some? {
      EarlierPagesSame(m, MapPage(m.(used := used), PageAddr(b + n), r.value, WRITABLE).0, b, n);
    }
  }

  /** The rounds after the first one leave its page as it is. */
  lemma {:induction false} FirstPageStays(m: Machine, b: nat, n: nat, fixed: set<nat>)
    requires WindowInv(m, fixed) && n > 0 && b + n <= |m.used|
    ensures WindowMap(FillRounds(m, b, n).0, b) == WindowMap(FillRounds(m, b, 1).0, b)
  {
    hide WindowInv, WindowMap, MapPage, FillRounds, PageAddr, Filled;
    if n > 1 {
      FirstPageStays(m, b, n - 1, fixed);
      FillRoundsOutcome(m, b, n - 1, fixed);
      var (m1, s) := FillRounds(m, b, n - 1);
      FilledSize(m, m1, s, b, n - 1);
      RoundKeepsEarlier(m1, b, n - 1, fixed);
      OneRound(m, b, n);
    }
  }

  /** Without a free page the rounds after the first one change nothing. */
  lemma {:induction false} StuckAfterFirst(m: Machine, b: nat, n: nat)
    requires n > 0 && FreeCount(FillRounds(m, b, 1).0.used) == 0
    ensures FillRounds(m, b, n).0 == FillRounds(m, b, 1).0
  {
    hide MapPage, PageAddr, FillRounds, FreeCount;
    if n > 1 {
      StuckAfterFirst(m, b, n - 1);
      OneRound(m, b, n);
      NoFreePage(FillRounds(m, b, n - 1).0.used);
      FreshPage(FillRounds(m, b, n - 1).0.used);
    }
  }

  /** The first round took a page for data, but not the tables of the page. */
  lemma FirstRoundFailed(m: Machine, b: nat, fixed: set<nat>)
    requires WindowInv(m, fixed) && b < |m.used| && 0 < FreeCount(m.used) < Need(m, b, 1)
    ensures var m1 := FillRounds(m, b, 1).0;
            && FreeCount(m1.used) == 0 && |m1.used| == |m.used|
            && (forall j: nat :: j < |m.used| ==> WindowMap(m1, j) == WindowMap(m, j))
            && exists f :: PaidFor(m, m1, {f})
  {
    hide WindowInv, WindowMap, MapPage, FillRounds, SameExcept, PageAddr, FreeCount, PaidFor, Need, Filled, FillVerdict;
    FillCost(m, b, 1, fixed);
    FillRoundsOutcome(m, b, 1, fixed);
    FilledSize(m, FillRounds(m, b, 1).0, FillRounds(m, b, 1).1, b, 1);
    FillRound(m, b, fixed);
    OneRound(m, b, 1);
    NoRounds(m, b);
    FirstVerdict(m, b);
    var m1 := FillRounds(m, b, 1).0;
    WindowSize(m, fixed);
    OthersSame(m, m1, b);
  }

  lemma NoRounds(m: Machine, b: nat)
    ensures FillRounds(m, b, 0) == (m, Done(true)) && Need(m, b, 0) == 0
  {
  }

  lemma FirstVerdict(m: Machine, b: nat)
    requires var (m1, s) := FillRounds(m, b, 1); FillVerdict(m, m1, s, b, 1)
    ensures FillRounds(m, b, 1).1 == Done(true) <==> FreeCount(m.used) >= Need(m, b, 1)
  {
    hide FillRounds, FreeCount, Need, Grown, WritablePages, WindowMap;
  }

  /** The loop gave up: a page of the run stays mapped, or a frame stays used for nothing. */
  lemma GaveUp(m0: Machine, s: State, k': Kernel, b: nat, n: nat, fixed: set<nat>)
    requires KernelInv(s.k, fixed) && Tidy(s) && Balanced(m0, s.k.m)
    requires n > 1 && b + n <= |s.k.rsv| && !s.k.rsv[b] && FreeCount(s.k.m.used) > 0
    requires k' == Kernel(FillRounds(s.k.m, b, n).0, s.k.rsv)
    ensures !(Tidy(State(k', s.live)) && Balanced(m0, k'.m))
  {
    hide WindowInv, WindowMap, FillRounds, FreeCount, PaidFor, Need, Tidy, Balanced, FillVerdict, Filled, WritablePages;
    var m := s.k.m;
    if FreeCount(m.used) < Need(m, b, 1) {
      FirstRoundFailed(m, b, fixed);
      StuckAfterFirst(m, b, n);
      var f :| PaidFor(m, k'.m, {f});
      SameMapped(m, k'.m);
      FrameOfNobody(m0, m, k'.m, f);
    } else {
      FillCost(m, b, 1, fixed);
      FirstVerdict(m, b);
      FillRoundsOutcome(m, b, 1, fixed);
      FirstPageMapped(m, FillRounds(m, b, 1).0, b);
      FirstPageStays(m, b, n, fixed);
      MappedByNobody(s, k', b);
    }
  }

  lemma FirstPageMapped(m: Machine, m1: Machine, b: nat)
    requires Filled(m, m1, Done(true), b, 1)
    ensures WindowMap(m1, b) != Unmapped
  {
    hide WindowMap, OnlyWindow, PaidFor, FreeCount, UsedSet;
  }

  /** What a failing allocation that found a free page makes of the machine. */
  lemma FailedWays(k: Kernel, bytes: nat, b: nat, fixed: set<nat>)
    requires KernelInv(k, fixed) && FirstRun(k.rsv, DivideRoundUp(bytes, PAGE_SIZE)) == Some(b)
             && !Lossless(k, New(bytes))
    ensures var n := DivideRoundUp(bytes, PAGE_SIZE);
            var (k', addr) := Malloc(k, bytes);
            && addr == 0 && n > 0 && b + n <= |k.rsv| && !k.rsv[b] && FreeCount(k.m.used) > 0
            && (k'.rsv == WriteRange(k.rsv, b, n, true)
                || (n > 1 && k' == Kernel(FillRounds(k.m, b, n).0, k.rsv)))
  {
    hide KernelInv, Malloc, FirstRun, FreeCount, FillRounds, WriteRange, WritablePages, WindowMap, Need, PageAddr,
      DivideRoundUp;
    var n := DivideRoundUp(bytes, PAGE_SIZE);
    RunBounds(k.rsv, n);
    MallocSucceedsIff(k, bytes, fixed);
    var (m, s) := FillRounds(k.m, b, n);
    MallocOfFill(k, bytes, m, s);
    NothingNeeded(k.m, b);
    NoRounds(k.m, b);
  }

  lemma HalfwayLoses(m0: Machine, s: State, bytes: nat, fixed: set<nat>)
    requires Ledger(m0, s, fixed) && !Lossless(s.k, New(bytes))
    ensures !Ledger(m0, Step(s, New(bytes)), fixed)
  {
    hide LiveInv, Tidy, Balanced, Malloc, FirstRun, DivideRoundUp, FillRounds, FreeCount, KernelInv, Affordable,
      WriteRange;
    LiveBoundsOf(s, fixed);
    var n := DivideRoundUp(bytes, PAGE_SIZE);
    var b := FirstRun(s.k.rsv, n).value;
    FailedWays(s.k, bytes, b, fixed);
    var k' := Malloc(s.k, bytes).0;
    if k'.rsv == WriteRange(s.k.rsv, b, n, true) {
      ReservedByNobody(s, k', b, n);
    } else {
      GaveUp(m0, s, k', b, n, fixed);
    }
  }

  // ----- release -----

  lemma GoneFrames(m: Machine, m': Machine, b: nat, n: nat, fixed: set<nat>)
    requires WindowInv(m, fixed) && b + n <= |m.used| == |m'.used|
    requires forall j: nat :: b <= j < b + n ==> WindowMap(m', j) == Unmapped
    requires forall j: nat :: j < |m.used| && !(b <= j < b + n) ==> WindowMap(m', j) == WindowMap(m, j)
    ensures MappedFrames(m') == MappedFrames(m) - FramesOf(m, b, n)
  {
    hide WindowMap, FramesOf, WindowInv;
    forall f: nat | f < FRAMES
      ensures MapsTo(m', f) <==> MapsTo(m, f) && f !in FramesOf(m, b, n)
    {
      FramesOfMember(m, b, n, f);
      if j: nat, l: nat :| j < |m.used| && l < |m.used| && j != l
                           && WindowMap(m, j).Page? && WindowMap(m, j).frame == f
                           && WindowMap(m, l).Page? && WindowMap(m, l).frame == f {
        Unshared(m, j, l, fixed);
      }
    }
    hide MapsTo;
  }

  lemma BalancedGive(m0: Machine, m: Machine, m': Machine, data: set<nat>)
    requires Balanced(m0, m) && |m'.used| == |m.used| && Tables(m') == Tables(m) && data <= MappedFrames(m)
    requires UsedSet(m'.used) == UsedSet(m.used) - data && MappedFrames(m') == MappedFrames(m) - data
    ensures Balanced(m0, m')
  {
    hide UsedSet, Tables, MappedFrames;
  }

  lemma FramesAreMapped(m: Machine, b: nat, n: nat)
    requires b + n <= |m.used|
    ensures FramesOf(m, b, n) <= MappedFrames(m)
  {
    hide WindowMap, FramesOf;
    forall f | f in FramesOf(m, b, n)
      ensures f in MappedFrames(m)
    {
      FramesOfMember(m, b, n, f);
      var j: nat :| b <= j < b + n && WindowMap(m, j).Page? && WindowMap(m, j).frame == f;
      assert j < |m.used|;
    }
  }

  lemma TidyGive(s: State, k': Kernel, st: nat, fixed: set<nat>)
    requires LiveInv(s, fixed) && Tidy(s) && st in s.live && |k'.m.used| == |s.k.m.used|
    requires k'.rsv == WriteRange(s.k.rsv, st, s.live[st], false)
    requires forall j: nat :: st <= j < st + s.live[st] ==> WindowMap(k'.m, j) == Unmapped
    requires forall j: nat :: j < |s.k.m.used| && !(st <= j < st + s.live[st]) ==>
               WindowMap(k'.m, j) == WindowMap(s.k.m, j)
    ensures Tidy(State(k', s.live - {st}))
  {
    hide WindowMap, KernelInv, WritablePages, Reserved;
    forall j | 0 <= j < |k'.rsv|
      ensures k'.rsv[j] <==> OwnedPage(s.live - {st}, j)
    {
      OwnedWithout(s.live, st, j);
    }
  }

  lemma OwnedWithout(live: map<nat, nat>, st: nat, j: int)
    requires st in live && forall a :: a in live && a != st ==> Disjoint(a, live[a], st, live[st])
    ensures OwnedPage(live - {st}, j) <==> OwnedPage(live, j) && !(st <= j < st + live[st])
  {
    var rest := live - {st};
    if a :| a in rest && a <= j < a + rest[a] {
      assert Disjoint(a, live[a], st, live[st]);
    }
    if a :| a in live && a <= j < a + live[a] && !(st <= j < st + live[st]) {
      assert a in rest && rest[a] == live[a];
    }
  }

  lemma GiveStep(m0: Machine, s: State, k': Kernel, st: nat, fixed: set<nat>)
    requires Ledger(m0, s, fixed) && st in s.live && Freed(s.k, k', st, s.live[st]) && |k'.m.used| == |s.k.m.used|
    ensures Tidy(State(k', s.live - {st})) && Balanced(m0, k'.m)
  {
    var n := s.live[st];
    FreedParts(s.k, k', st, n);
    hide LiveInv, WindowMap, Balanced, OnlyWindow, FramesOf, Tidy, UsedSet, Tables, MappedFrames, WriteRange,
      KernelInv, WindowInv;
    LiveBoundsOf(s, fixed);
    InvOf(s.k, fixed);
    OthersKept(s.k, k', st, n);
    TidyGive(s, k', st, fixed);
    GoneFrames(s.k.m, k'.m, st, n, fixed);
    FramesAreMapped(s.k.m, st, n);
    BalancedGive(m0, s.k.m, k'.m, FramesOf(s.k.m, st, n));
  }

  lemma InvOf(k: Kernel, fixed: set<nat>)
    requires KernelInv(k, fixed)
    ensures WindowInv(k.m, fixed) && |k.rsv| == |k.m.used| <= WINDOW_PAGES
  {
    WindowSize(k.m, fixed);
  }

  lemma DeleteLedger(m0: Machine, s: State, st: nat, fixed: set<nat>)
    requires Ledger(m0, s, fixed)
    ensures Ledger(m0, Step(s, Delete(st)), fixed)
  {
    hide LiveInv, Tidy, Balanced, Freed, Free, SamePages, KernelInv, DivideRoundUp, PageAddr;
    DeleteStep(s, st, fixed);
    if st in s.live {
      var n := s.live[st];
      LiveBoundsOf(s, fixed);
      InvOf(s.k, fixed);
      PagesOfBytes(n);
      PageOfAddr(st);
      LiveMapped(s, st, fixed);
      FreeOutcome(s.k, PageAddr(st), n * PAGE_SIZE, fixed);
      var k' := Free(s.k, PageAddr(st), n * PAGE_SIZE).0;
      InvOf(k', fixed);
      FreedSize(s.k, k', st, n);
      GiveStep(m0, s, k', st, fixed);
    }
  }

  lemma FreedSize(k: Kernel, k': Kernel, b: nat, n: nat)
    requires Freed(k, k', b, n)
    ensures |k'.rsv| == |k.rsv|
  {
  }

  lemma LiveMapped(s: State, st: nat, fixed: set<nat>)
    requires LiveInv(s, fixed) && st in s.live
    ensures MappedPages(s.k.m, st, s.live[st])
  {
    hide WindowMap, KernelInv;
  }

  // ----- runs -----

  /** One call keeps the ledger exactly when it is no allocation that fails halfway. */
  lemma LedgerKeptIff(m0: Machine, s: State, op: Op, fixed: set<nat>)
    requires Ledger(m0, s, fixed)
    ensures Ledger(m0, Step(s, op), fixed) <==> Lossless(s.k, op)
  {
    hide Ledger, Step;
    match op {
      case New(bytes) =>
        if Lossless(s.k, op) {
          NewLedger(m0, s, bytes, fixed);
        } else {
          HalfwayLoses(m0, s, bytes, fixed);
        }
      case Delete(st) => DeleteLedger(m0, s, st, fixed);
    }
  }

  /** The ledger holds at every moment of a run. */
  ghost predicate LedgerThroughout(m0: Machine, s: State, ops: seq<Op>, fixed: set<nat>)
    decreases |ops|
  {
    Ledger(m0, s, fixed) && (ops != [] ==> LedgerThroughout(m0, Step(s, ops[0]), ops[1..], fixed))
  }

  /**
   * The reserved pages are exactly those of the live ranges, and the used physical pages those used at first, the new
   * page tables and the frames of live ranges, at every moment of exactly those runs in which each allocation finds
   * no run of pages, enough free physical pages, or none.
   */
  lemma {:induction false} LedgerRun(m0: Machine, s: State, ops: seq<Op>, fixed: set<nat>)
    requires Ledger(m0, s, fixed)
    ensures LedgerThroughout(m0, s, ops, fixed) <==> LosslessRun(s, ops)
    ensures LosslessRun(s, ops) ==> Ledger(m0, Run(s, ops), fixed)
    decreases |ops|
  {
    hide Ledger, Step, Lossless;
    if ops != [] {
      LedgerKeptIff(m0, s, ops[0], fixed);
      if Lossless(s.k, ops[0]) {
        LedgerRun(m0, Step(s, ops[0]), ops[1..], fixed);
      } else {
        NotThroughout(m0, Step(s, ops[0]), ops[1..], fixed);
      }
    }
  }

  lemma NotThroughout(m0: Machine, s: State, ops: seq<Op>, fixed: set<nat>)
    requires !Ledger(m0, s, fixed)
    ensures !LedgerThroughout(m0, s, ops, fixed)
  {
    hide Ledger, Step;
  }

  lemma LedgerStart(k: Kernel, fixed: set<nat>)
    requires KernelInv(k, fixed) && forall j :: 0 <= j < |k.rsv| ==> !k.rsv[j]
    requires forall j: nat :: j < |k.rsv| ==> WindowMap(k.m, j) == Unmapped
    ensures Ledger(k.m, State(k, map[]), fixed)
  {
    hide WindowInv, WindowMap, Tables, UsedSet;
    assert forall f: nat :: !MapsTo(k.m, f);
    assert MappedFrames(k.m) == {};
  }

  /** When a run from an empty window has given everything back, only the new page tables are missing. */
  lemma NothingLiveOnlyTables(k: Kernel, ops: seq<Op>, fixed: set<nat>)
    requires KernelInv(k, fixed) && forall j :: 0 <= j < |k.rsv| ==> !k.rsv[j]
    requires forall j: nat :: j < |k.rsv| ==> WindowMap(k.m, j) == Unmapped
    requires LosslessRun(State(k, map[]), ops) && Run(State(k, map[]), ops).live == map[]
    ensures var k' := Run(State(k, map[]), ops).k;
            && k'.rsv == k.rsv
            && (forall j: nat :: j < |k.rsv| ==> WindowMap(k'.m, j) == Unmapped)
            && UsedSet(k'.m.used) == UsedSet(k.m.used) + (Tables(k'.m) - Tables(k.m))
            && FreeCount(k.m.used) - FreeCount(k'.m.used) == |Tables(k'.m) - Tables(k.m)|
  {
    LedgerStart(k, fixed);
    hide KernelInv, WindowMap, Run, LosslessRun, UsedSet, Tables, Ledger, FreeCount;
    LedgerRun(k.m, State(k, map[]), ops, fixed);
    InvOf(k, fixed);
    ClosedLedger(k, Run(State(k, map[]), ops), fixed);
  }

  lemma ClosedLedger(k: Kernel, s: State, fixed: set<nat>)
    requires Ledger(k.m, s, fixed) && s.live == map[] && |k.rsv| == |k.m.used|
    requires forall j :: 0 <= j < |k.rsv| ==> !k.rsv[j]
    ensures s.k.rsv == k.rsv
    ensures forall j: nat :: j < |k.rsv| ==> WindowMap(s.k.m, j) == Unmapped
    ensures UsedSet(s.k.m.used) == UsedSet(k.m.used) + (Tables(s.k.m) - Tables(k.m))
    ensures FreeCount(k.m.used) - FreeCount(s.k.m.used) == |Tables(s.k.m) - Tables(k.m)|
  {
    hide WindowMap, LiveInv, Tidy, UsedSet, Tables, MappedFrames, FreeCount;
    NothingReserved(s);
    OnlyTables(k.m, s.k.m);
  }

  lemma NothingReserved(s: State)
    requires Tidy(s) && s.live == map[]
    ensures |s.k.rsv| == |s.k.m.used| && forall j :: 0 <= j < |s.k.rsv| ==> !s.k.rsv[j]
    ensures forall j: nat :: j < |s.k.rsv| ==> WindowMap(s.k.m, j) == Unmapped
    ensures MappedFrames(s.k.m) == {}
  {
    hide WindowMap;
    assert forall j :: !OwnedPage(s.live, j);
    assert forall f: nat :: !MapsTo(s.k.m, f);
  }

  lemma OnlyTables(m0: Machine, m: Machine)
    requires Balanced(m0, m) && MappedFrames(m) == {}
    ensures UsedSet(m.used) == UsedSet(m0.used) + (Tables(m) - Tables(m0))
    ensures FreeCount(m0.used) - FreeCount(m.used) == |Tables(m) - Tables(m0)|
  {
    hide UsedSet, Tables, MappedFrames;
    var created := Tables(m) - Tables(m0);
    assert UsedSet(m.used) == UsedSet(m0.used) + created;
    assert |UsedSet(m.used)| == |UsedSet(m0.used)| + |created|;
  }
}
