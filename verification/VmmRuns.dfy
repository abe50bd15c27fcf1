/** Every run of `vmm_malloc_pages` and `vmm_free_pages`. */
module VmmRuns {
  import opened Arith
  import opened BitRuns
  import opened PageTables
  import opened VmmSpec
  import opened VmmProofs
  import opened VmmRelease

  // ----- any calls, failing ones and frees of unmapped pages included -----

  datatype Call = Alloc(byteAmount: nat) | Release(virtAddr: nat, byteAmount: nat)

  /** Frees name pages of the window. */
  predicate InBounds(c: Call, count: nat) {
    c.Release? ==> c.virtAddr >= VMM_BASE && PageOf(c.virtAddr) + DivideRoundUp(c.byteAmount, PAGE_SIZE) <= count
  }

  function Perform(k: Kernel, c: Call): Kernel
    requires InBounds(c, |k.rsv|)
  {
    match c
    case Alloc(bytes) => Malloc(k, bytes).0
    case Release(addr, bytes) => Free(k, addr, bytes).0
  }

  ghost predicate IsRun(ks: seq<Kernel>, calls: seq<Call>) {
    && |ks| == |calls| + 1
    && forall i :: 0 <= i < |calls| ==> InBounds(calls[i], |ks[i].rsv|) && ks[i + 1] == Perform(ks[i], calls[i])
  }

  lemma PerformKeepsInv(k: Kernel, c: Call, fixed: set<nat>)
    requires KernelInv(k, fixed) && InBounds(c, |k.rsv|)
    ensures KernelInv(Perform(k, c), fixed)
  {
    hide WindowInv, Malloc, Free;
    match c {
      case Alloc(bytes) => MallocOutcome(k, bytes, fixed);
      case Release(addr, bytes) => FreeKeepsInv(k, addr, bytes, fixed);
    }
  }

  lemma FreeKeepsInv(k: Kernel, virtAddr: nat, byteAmount: nat, fixed: set<nat>)
    requires KernelInv(k, fixed) && InBounds(Release(virtAddr, byteAmount), |k.rsv|)
    ensures KernelInv(Free(k, virtAddr, byteAmount).0, fixed)
  {
    hide WindowInv;
    ReleaseRoundsSafe(k, virtAddr, DivideRoundUp(byteAmount, PAGE_SIZE), fixed);
  }

  /**
   * Ownership at every moment of every run: distinct mapped window pages have distinct frames, and
   * each of these is marked used, is no page table and is none of the frames reserved at boot.
   */
  lemma {:induction false} Ownership(ks: seq<Kernel>, calls: seq<Call>, fixed: set<nat>, t: nat, j: nat, l: nat)
    requires IsRun(ks, calls) && KernelInv(ks[0], fixed) && t < |ks|
    requires j < |ks[t].rsv| && l < |ks[t].rsv| && WindowMap(ks[t].m, j).Page? && WindowMap(ks[t].m, l).Page?
    ensures j != l ==> WindowMap(ks[t].m, j).frame != WindowMap(ks[t].m, l).frame
    ensures DataFrame(ks[t].m, fixed, WindowMap(ks[t].m, j).frame)
  {
    InvThroughout(ks, calls, fixed, t);
    assert KernelInv(ks[t], fixed);
    hide WindowMap, Inv, DataFrame;
    assert ShareFrame(WindowMap(ks[t].m, j), WindowMap(ks[t].m, l)) ==> j == l;
  }

  lemma {:induction false} InvThroughout(ks: seq<Kernel>, calls: seq<Call>, fixed: set<nat>, t: nat)
    requires IsRun(ks, calls) && KernelInv(ks[0], fixed) && t < |ks|
    ensures KernelInv(ks[t], fixed)
    decreases t
  {
    hide KernelInv, Perform;
    if t > 0 {
      InvThroughout(ks, calls, fixed, t - 1);
      PerformKeepsInv(ks[t - 1], calls[t - 1], fixed);
    }
  }

  // ----- callers that free exactly what they were given -----

  /** Live ranges as start page -> number of pages. */
  datatype State = State(k: Kernel, live: map<nat, nat>)

  datatype Op = New(byteAmount: nat) | Delete(startPage: nat)

  function Step(s: State, op: Op): State {
    match op
    case New(bytes) =>
      var (k', addr) := Malloc(s.k, bytes);
      if addr < VMM_BASE then State(k', s.live)
      else State(k', s.live[PageOf(addr) := DivideRoundUp(bytes, PAGE_SIZE)])
    case Delete(st) =>
      if st !in s.live then s
      else State(Free(s.k, PageAddr(st), s.live[st] * PAGE_SIZE).0, s.live - {st})
  }

  function Run(s: State, ops: seq<Op>): State
    decreases |ops|
  {
    if ops == [] then s else Run(Step(s, ops[0]), ops[1..])
  }

  ghost predicate Disjoint(a: nat, n: nat, b: nat, l: nat) {
    a + n <= b || b + l <= a
  }

  ghost predicate Reserved(k: Kernel, st: nat, n: nat) {
    n > 0 && st + n <= |k.rsv| && forall j :: st <= j < st + n ==> k.rsv[j]
  }

  /** Live ranges are reserved, mapped writable and pairwise disjoint. */
  ghost predicate LiveInv(s: State, fixed: set<nat>) {
    && KernelInv(s.k, fixed)
    && (forall st :: st in s.live ==> Reserved(s.k, st, s.live[st]) && WritablePages(s.k.m, st, s.live[st]))
    && (forall a, b :: a in s.live && b in s.live && a != b ==> Disjoint(a, s.live[a], b, s.live[b]))
  }

  /** Every page of the range translates as before. */
  ghost predicate SamePages(k: Kernel, k': Kernel, st: nat, n: nat) {
    forall j: nat :: st <= j < st + n ==> WindowMap(k'.m, j) == WindowMap(k.m, j)
  }

  lemma OutsideKeeps(k: Kernel, k': Kernel, b: nat, n: nat, st: nat, l: nat, fixed: set<nat>)
    requires KernelInv(k, fixed) && OnlyWindow(k.m, k'.m, b, n) && b + n <= |k.rsv| && st + l <= |k.rsv|
             && Disjoint(b, n, st, l)
    ensures SamePages(k, k', st, l)
  {
    WindowSize(k.m, fixed);
    hide WindowMap, WindowInv, OnlyWindow;
    forall j: nat | st <= j < st + l
      ensures WindowMap(k'.m, j) == WindowMap(k.m, j)
    {
      OnlyWindowKeeps(k.m, k'.m, b, n, j);
    }
  }

  lemma SamePagesWritable(k: Kernel, k': Kernel, st: nat, n: nat)
    requires SamePages(k, k', st, n) && WritablePages(k.m, st, n)
    ensures WritablePages(k'.m, st, n)
  {
    hide WindowMap;
  }

  /** A range that holds a reserved page is not what the next allocation gives. */
  lemma FreshRangeDisjoint(k: Kernel, n: nat, b: nat, st: nat, l: nat)
    requires FirstRun(k.rsv, n) == Some(b) && Reserved(k, st, l)
    ensures n > 0 && b + n <= |k.rsv| && Disjoint(b, n, st, l)
  {
    assert IsFreeRun(k.rsv, b, n);
    var j := if b <= st then st else b;
    assert j < |k.rsv| && (k.rsv[j] || !k.rsv[j]);
  }

  /** What a caller needs to know about the range `b .. b + n` that an allocation considered. */
  ghost predicate AllocatedAt(k: Kernel, k': Kernel, addr: nat, b: nat, n: nat) {
    && n > 0 && b + n <= |k.rsv| == |k'.rsv|
    && OnlyWindow(k.m, k'.m, b, n)
    && (forall j :: 0 <= j < |k.rsv| && !(b <= j < b + n) ==> k'.rsv[j] == k.rsv[j])
    && (addr != 0 ==> addr == PageAddr(b) && WritablePages(k'.m, b, n) && Reserved(k', b, n))
  }

  lemma MallocBrief(k: Kernel, bytes: nat, fixed: set<nat>)
    requires KernelInv(k, fixed)
    ensures var n := DivideRoundUp(bytes, PAGE_SIZE);
            var (k', addr) := Malloc(k, bytes);
            && KernelInv(k', fixed)
            && (match FirstRun(k.rsv, n)
                case None => k' == k && addr == 0
                case Some(b) => AllocatedAt(k, k', addr, b, n))
  {
    var n := DivideRoundUp(bytes, PAGE_SIZE);
    hide Malloc, WindowInv, MallocResult, FirstRun, DivideRoundUp;
    MallocOutcome(k, bytes, fixed);
    if FirstRun(k.rsv, n).Some? {
      FirstRunBounds(k.rsv, n);
      var (k', addr) := Malloc(k, bytes);
      MallocParts(k, k', addr, FirstRun(k.rsv, n).value, n);
    }
  }

  lemma MallocParts(k: Kernel, k': Kernel, addr: nat, b: nat, n: nat)
    requires MallocResult(k, k', addr, b, n) && n > 0 && b + n <= |k.rsv|
    ensures AllocatedAt(k, k', addr, b, n)
  {
    hide WindowMap, OnlyWindow, WritablePages, PaidFor, FramesOf, FreeCount, PageAddr;
  }

  lemma FirstRunBounds(bits: seq<bool>, n: nat)
    requires FirstRun(bits, n).Some?
    ensures n > 0 && FirstRun(bits, n).value + n <= |bits|
  {
  }

  lemma NewStep(s: State, bytes: nat, fixed: set<nat>)
    requires LiveInv(s, fixed)
    ensures var s' := Step(s, New(bytes));
            && LiveInv(s', fixed)
            && forall st :: st in s.live ==>
                 st in s'.live && s'.live[st] == s.live[st] && SamePages(s.k, s'.k, st, s.live[st])
  {
    var n := DivideRoundUp(bytes, PAGE_SIZE);
    var (k', addr) := Malloc(s.k, bytes);
    MallocBrief(s.k, bytes, fixed);
    hide Malloc, KernelInv, FirstRun, WritablePages, SamePages, DivideRoundUp, AllocatedAt;
    match FirstRun(s.k.rsv, n) {
      case None =>
        forall st | st in s.live
          ensures SamePages(s.k, s.k, st, s.live[st])
        {
          SamePagesRefl(s.k, st, s.live[st]);
        }
      case Some(b) =>
        forall st | st in s.live
          ensures SamePages(s.k, k', st, s.live[st]) && Reserved(k', st, s.live[st])
                  && WritablePages(k'.m, st, s.live[st])
          ensures Disjoint(b, n, st, s.live[st])
        {
          FreshRangeDisjoint(s.k, n, b, st, s.live[st]);
          ReservedStays(s.k, k', addr, b, n, st, s.live[st]);
          OutsideKeeps(s.k, k', b, n, st, s.live[st], fixed);
          SamePagesWritable(s.k, k', st, s.live[st]);
        }
        NewAddress(s.k, k', addr, b, n);
        NewLive(s, Step(s, New(bytes)), addr, b, n, fixed);
    }
  }

  lemma ReservedStays(k: Kernel, k': Kernel, addr: nat, b: nat, n: nat, st: nat, l: nat)
    requires AllocatedAt(k, k', addr, b, n) && Reserved(k, st, l) && Disjoint(b, n, st, l)
    ensures Reserved(k', st, l) && OnlyWindow(k.m, k'.m, b, n)
  {
    hide OnlyWindow, WritablePages, PageAddr;
  }

  lemma NewAddress(k: Kernel, k': Kernel, addr: nat, b: nat, n: nat)
    requires AllocatedAt(k, k', addr, b, n)
    ensures if addr == 0 then addr < VMM_BASE else addr >= VMM_BASE && PageOf(addr) == b
  {
    hide OnlyWindow, WritablePages;
  }

  /** The live ranges after an allocation at `b`, each of the earlier ones apart from it. */
  lemma NewLive(s: State, s': State, addr: nat, b: nat, n: nat, fixed: set<nat>)
    requires LiveInv(s, fixed) && KernelInv(s'.k, fixed) && AllocatedAt(s.k, s'.k, addr, b, n)
    requires s'.live == if addr == 0 then s.live else s.live[b := n]
    requires forall st :: st in s.live ==> Disjoint(b, n, st, s.live[st])
    requires forall st :: st in s.live ==> Reserved(s'.k, st, s.live[st]) && WritablePages(s'.k.m, st, s.live[st])
    ensures LiveInv(s', fixed) && forall st :: st in s.live ==> st in s'.live && s'.live[st] == s.live[st]
  {
    hide KernelInv, WindowMap, OnlyWindow, WritablePages;
    assert forall st :: st in s.live ==> s.live[st] > 0 && Disjoint(b, n, st, s.live[st]);
  }

  lemma SamePagesRefl(k: Kernel, st: nat, n: nat)
    ensures SamePages(k, k, st, n)
  {
  }

  lemma DeleteStep(s: State, st: nat, fixed: set<nat>)
    requires LiveInv(s, fixed)
    ensures var s' := Step(s, Delete(st));
            && LiveInv(s', fixed)
            && forall x :: x in s.live && x != st ==>
                 x in s'.live && s'.live[x] == s.live[x] && SamePages(s.k, s'.k, x, s.live[x])
  {
    hide WindowInv, WindowMap, OnlyWindow, WritablePages, SamePages, Free, Freed;
    if st in s.live {
      var n := s.live[st];
      var k' := Free(s.k, PageAddr(st), n * PAGE_SIZE).0;
      WindowSize(s.k.m, fixed);
      PagesOfBytes(n);
      WritableAreMapped(s.k.m, st, n);
      FreeOutcome(s.k, PageAddr(st), n * PAGE_SIZE, fixed);
      FreedParts(s.k, k', st, n);
      forall x | x in s.live && x != st
        ensures SamePages(s.k, k', x, s.live[x]) && Reserved(k', x, s.live[x]) && WritablePages(k'.m, x, s.live[x])
      {
        OutsideKeeps(s.k, k', st, n, x, s.live[x], fixed);
        SamePagesWritable(s.k, k', x, s.live[x]);
      }
    } else {
      forall x | x in s.live
        ensures SamePages(s.k, s.k, x, s.live[x])
      {
        SamePagesRefl(s.k, x, s.live[x]);
      }
    }
  }

  lemma FreedParts(k: Kernel, k': Kernel, b: nat, n: nat)
    requires Freed(k, k', b, n)
    ensures k'.rsv == WriteRange(k.rsv, b, n, false) && OnlyWindow(k.m, k'.m, b, n)
  {
  }

  /**
   * Over every run of callers that free only what they hold: live ranges stay reserved, writable and
   * disjoint, and a range keeps the translation of each of its pages until it is itself deleted.
   */
  lemma {:induction false} LiveRun(s: State, ops: seq<Op>, fixed: set<nat>)
    requires LiveInv(s, fixed)
    ensures var s' := Run(s, ops);
            && LiveInv(s', fixed)
            && forall st :: st in s.live && Delete(st) !in ops ==>
                  st in s'.live && s'.live[st] == s.live[st] && SamePages(s.k, s'.k, st, s.live[st])
    decreases |ops|
  {
    hide LiveInv, SamePages, Step;
    if ops == [] {
      forall st | st in s.live
        ensures SamePages(s.k, s.k, st, s.live[st])
      {
        SamePagesRefl(s.k, st, s.live[st]);
      }
    } else {
      var s1 := Step(s, ops[0]);
      match ops[0] {
        case New(bytes) => NewStep(s, bytes, fixed);
        case Delete(st) => DeleteStep(s, st, fixed);
      }
      LiveRun(s1, ops[1..], fixed);
      forall st | st in s.live && Delete(st) !in ops
        ensures st in Run(s, ops).live && Run(s, ops).live[st] == s.live[st]
                && SamePages(s.k, Run(s, ops).k, st, s.live[st])
      {
        assert ops[0] != Delete(st);
        SamePagesTransitive(s.k, s1.k, Run(s, ops).k, st, s.live[st]);
      }
    }
  }

  lemma SamePagesTransitive(k: Kernel, k1: Kernel, k2: Kernel, st: nat, n: nat)
    requires SamePages(k, k1, st, n) && SamePages(k1, k2, st, n)
    ensures SamePages(k, k2, st, n)
  {
    hide WindowMap;
  }
}
