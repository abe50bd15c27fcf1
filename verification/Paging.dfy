/**
 * 4-level paging: physical memory as page-table frames, the table walk that creates missing
 * tables, and the flat map from pages to frames that the tree of tables represents.
 */
module PageTables {
  import opened Arith
  import opened BitRuns
  import PmmSpec

  /** A frame number is the 40-bit `Address` field of an entry. */
  const FRAMES: nat := 0x100_0000_0000

  type Frame = n: nat | n < FRAMES
  type Index = n: nat | n < 512

  /** `large` is the PageSizeOrPAT bit; `rest` stands for the fields that the kernel never assigns alone. */
  datatype Entry = Entry(present: bool, writable: bool, cacheOff: bool, large: bool, frame: Frame, rest: nat)

  const ZERO := Entry(false, false, false, false, 0, 0)

  type Table = t: seq<Entry> | |t| == 512 ghost witness seq(512, _ => ZERO)
  type Memory = s: seq<Table> | |s| == FRAMES ghost witness seq(FRAMES, _ => seq(512, _ => ZERO))
  type PageBits = s: seq<bool> | |s| <= FRAMES witness []

  function ClearedTable(): Table {
    seq(512, _ => ZERO)
  }

  /** CR3, the content of physical memory read as tables, and the page bits of the physical allocator. */
  datatype Machine = Machine(root: Frame, frames: Memory, used: PageBits)

  datatype Flags = Flags(write: bool, cacheDisable: bool)

  // ----- address split, section 4.5 of the Intel SDM volume 3A -----

  function Pml4Index(v: nat): Index { v / 0x80_0000_0000 % 512 }
  function PdptIndex(v: nat): Index { v / 0x4000_0000 % 512 }
  function PdIndex(v: nat): Index { v / 0x20_0000 % 512 }
  function PtIndex(v: nat): Index { v / 0x1000 % 512 }

  function Path(v: nat): (p: seq<Index>)
    ensures |p| == 4
  {
    [Pml4Index(v), PdptIndex(v), PdIndex(v), PtIndex(v)]
  }

  const PAGES_48: nat := 0x10_0000_0000

  function PageNumber(v: nat): nat {
    v / PAGE_SIZE % PAGES_48
  }

  /** The four indexes are the base-512 digits of the 36-bit page number. */
  lemma IndexesAreDigits(v: nat)
    ensures PageNumber(v) == ((Pml4Index(v) * 512 + PdptIndex(v)) * 512 + PdIndex(v)) * 512 + PtIndex(v)
  {
    var n := v / PAGE_SIZE;
    ShiftTwice(v);
    LowDigits4(n);
    LowDigits3(n / 512);
    LowDigits2(n / 0x4_0000);
    LowDigits2(n);
  }

  lemma ShiftTwice(v: nat)
    ensures v / 0x20_0000 == v / PAGE_SIZE / 512
    ensures v / 0x4000_0000 == v / PAGE_SIZE / 0x4_0000
    ensures v / 0x80_0000_0000 == v / PAGE_SIZE / 0x4_0000 / 512
  {
  }

  lemma LowDigits4(n: nat)
    ensures n % PAGES_48 == n / 512 % 0x800_0000 * 512 + n % 512
  {
  }

  lemma LowDigits3(n: nat)
    ensures n % 0x800_0000 == n / 512 % 0x4_0000 * 512 + n % 512
  {
  }

  lemma LowDigits2(n: nat)
    ensures n % 0x4_0000 == n / 512 % 512 * 512 + n % 512
    ensures n / 512 / 512 == n / 0x4_0000
  {
  }

  /** Two addresses take the same path exactly when they are in the same 48-bit page. */
  lemma SamePathSamePage(v: nat, w: nat)
    ensures Path(v) == Path(w) <==> PageNumber(v) == PageNumber(w)
  {
    IndexesAreDigits(v);
    IndexesAreDigits(w);
    hide Pml4Index, PdptIndex, PdIndex, PtIndex, PageNumber;
    assert Path(v)[0] == Pml4Index(v) && Path(v)[1] == PdptIndex(v) && Path(v)[2] == PdIndex(v)
           && Path(v)[3] == PtIndex(v);
    assert Path(w)[0] == Pml4Index(w) && Path(w)[1] == PdptIndex(w) && Path(w)[2] == PdIndex(w)
           && Path(w)[3] == PtIndex(w);
    if PageNumber(v) == PageNumber(w) {
      DigitsUnique(Pml4Index(v), PdptIndex(v), PdIndex(v), PtIndex(v),
                   Pml4Index(w), PdptIndex(w), PdIndex(w), PtIndex(w));
    }
  }

  lemma DigitsUnique(a: Index, b: Index, c: Index, d: Index, a': Index, b': Index, c': Index, d': Index)
    requires ((a * 512 + b) * 512 + c) * 512 + d == ((a' * 512 + b') * 512 + c') * 512 + d'
    ensures a == a' && b == b' && c == c' && d == d'
  {
  }

  /** Consecutive pages of a range of at most 2^36 pages take distinct paths. */
  lemma PagesOfRangeDiffer(v: nat, i: nat, j: nat)
    requires i < j < i + PAGES_48
    ensures Path(v + i * PAGE_SIZE) != Path(v + j * PAGE_SIZE)
  {
    SamePathSamePage(v + i * PAGE_SIZE, v + j * PAGE_SIZE);
    ShiftedPage(v, i);
    ShiftedPage(v, j);
    ResiduesDiffer(v / PAGE_SIZE + i, v / PAGE_SIZE + j, PAGES_48);
  }

  lemma ShiftedPage(v: nat, i: nat)
    ensures (v + i * PAGE_SIZE) / PAGE_SIZE == v / PAGE_SIZE + i
  {
  }

  lemma ResiduesDiffer(a: nat, b: nat, n: nat)
    requires a < b < a + n
    ensures a % n != b % n
  {
    if a % n == b % n {
      var x, y := a / n, b / n;
      assert a == x * n + a % n && b == y * n + b % n;
      assert b - a == (y - x) * n;
      if y - x >= 1 {
        Monotone(1, y - x, n);
      } else {
        Monotone(0, x - y, n);
      }
    }
  }

  // ----- the kernel's operations -----

  /** `get_or_create_next_table`, with frame numbers for addresses; 0 is its failure value. */
  function GetOrCreateNextTable(m: Machine, t: Frame, i: Index): (Machine, Frame) {
    if m.frames[t][i].present then (m, m.frames[t][i].frame)
    else
      var (used, r) := PmmSpec.Malloc(m.used, PAGE_SIZE);
      match r
      case None => (m, 0)
      case Some(addr) =>
        FreshPage(m.used);
        var f := addr / PAGE_SIZE;
        var cleared := m.frames[f := ClearedTable()];
        var linked := cleared[t][i].(present := true, writable := true, frame := f);
        (Machine(m.root, cleared[t := cleared[t][i := linked]], used), f)
  }

  /** One page from the physical allocator: free before, marked after, nothing else changed. */
  lemma FreshPage(used: PageBits)
    ensures var (taken, r) := PmmSpec.Malloc(used, PAGE_SIZE);
            && (r.None? ==> taken == used)
            && (r.Some? ==> var f := r.value / PAGE_SIZE;
                  f < |used| && !used[f] && taken == used[f := true] && r.value == f * PAGE_SIZE)
  {
    var r := FirstRun(used, 1);
    if r.Some? {
      assert r.value * PAGE_SIZE / PAGE_SIZE == r.value;
    }
  }

  /** `page_walk`: the frame of the lowest table, created on the way where missing. */
  function PageWalk(m: Machine, v: nat): (Machine, Option<Frame>) {
    var (m1, t1) := GetOrCreateNextTable(m, m.root, Pml4Index(v));
    if t1 == 0 then (m1, None) else
    var (m2, t2) := GetOrCreateNextTable(m1, t1, PdptIndex(v));
    if t2 == 0 then (m2, None) else
    var (m3, t3) := GetOrCreateNextTable(m2, t2, PdIndex(v));
    if t3 == 0 then (m3, None) else (m3, Some(t3))
  }

  function SetEntry(m: Machine, t: Frame, i: Index, e: Entry): Machine {
    m.(frames := m.frames[t := m.frames[t][i := e]])
  }

  function MapPage(m: Machine, v: nat, p: nat, flags: Flags): (Machine, bool) {
    var (m', r) := PageWalk(m, v);
    match r
    case None => (m', false)
    case Some(t) =>
      var e := m'.frames[t][PtIndex(v)];
      (SetEntry(m', t, PtIndex(v), e.(present := true, writable := flags.write, cacheOff := flags.cacheDisable,
                                      frame := p / PAGE_SIZE % FRAMES)), true)
  }

  function FreePage(m: Machine, v: nat): (Machine, bool) {
    var (m', r) := PageWalk(m, v);
    match r
    case None => (m', false)
    case Some(t) => (SetEntry(m', t, PtIndex(v), ZERO), true)
  }

  /** The first `n` rounds of the loop in `map_pages`. */
  function MapRounds(m: Machine, v: nat, p: nat, flags: Flags, n: nat): (Machine, bool) {
    if n == 0 then (m, true)
    else
      var (m1, ok1) := MapRounds(m, v, p, flags, n - 1);
      var (m2, ok2) := MapPage(m1, v + (n - 1) * PAGE_SIZE, p + (n - 1) * PAGE_SIZE, flags);
      (m2, ok1 && ok2)
  }

  function MapPages(m: Machine, v: nat, p: nat, flags: Flags, requiredSize: nat): (Machine, bool) {
    MapRounds(m, v, p, flags, DivideRoundUp(requiredSize, PAGE_SIZE))
  }

  function FreeRounds(m: Machine, v: nat, n: nat): (Machine, bool) {
    if n == 0 then (m, true)
    else
      var (m1, ok1) := FreeRounds(m, v, n - 1);
      var (m2, ok2) := FreePage(m1, v + (n - 1) * PAGE_SIZE);
      (m2, ok1 && ok2)
  }

  function FreePages(m: Machine, v: nat, requiredSize: nat): (Machine, bool) {
    FreeRounds(m, v, DivideRoundUp(requiredSize, PAGE_SIZE))
  }

  // ----- what the processor sees -----

  datatype Mapping = Unmapped | Page(frame: Frame, writable: bool, cacheOff: bool) | Huge(level: nat, entry: Entry)

  /**
   * The processor's walk from table `t` over the remaining indexes; a page is writable if every entry on the way is.
   */
  function HardwareWalk(m: Machine, t: Frame, p: seq<Index>, writable: bool): Mapping
    requires p != []
    decreases |p|
  {
    var e := m.frames[t][p[0]];
    if !e.present then Unmapped
    else if |p| == 1 then Page(e.frame, writable && e.writable, e.cacheOff)
    else if e.large then Huge(|p| - 1, e)
    else HardwareWalk(m, e.frame, p[1..], writable && e.writable)
  }

  /** The flat map: what the tree gives for a path of four indexes. */
  function Translate(m: Machine, p: seq<Index>): Mapping
    requires |p| == 4
  {
    HardwareWalk(m, m.root, p, true)
  }

  /** The table that a path of indexes leads to. */
  function TableAt(m: Machine, p: seq<Index>): Option<Frame> {
    if p == [] then Some(m.root)
    else
      match TableAt(m, p[..|p| - 1])
      case None => None
      case Some(t) =>
        var e := m.frames[t][p[|p| - 1]];
        if e.present && !e.large then Some(e.frame) else None
  }

  /** The entry that links the table at `p`, when there is that table, allows writing. */
  function LinkWritable(m: Machine, p: seq<Index>): bool
    requires p != []
  {
    match TableAt(m, p[..|p| - 1])
    case None => true
    case Some(t) => TableAt(m, p).Some? ==> m.frames[t][p[|p| - 1]].writable
  }

  /** The right to write that the tables on a path leave to its page: no existing one is linked read-only. */
  function PathWritable(m: Machine, q: seq<Index>): bool
    requires |q| == 4
  {
    LinkWritable(m, q[..1]) && LinkWritable(m, q[..2]) && LinkWritable(m, q[..3])
  }

  ghost predicate Taken(used: PageBits, f: nat) {
    f < |used| ==> used[f]
  }

  /**
   * The tree invariant: every table has exactly one path, is not free in the physical allocator,
   * and only the root may be frame 0; absent entries above the leaves do not carry the large bit;
   * page 0 is never free.
   */
  ghost predicate Inv(m: Machine) {
    && (forall p: seq<Index>, q: seq<Index> ::
          |p| <= 3 && |q| <= 3 && TableAt(m, p).Some? && TableAt(m, p) == TableAt(m, q) ==> p == q)
    && (forall p: seq<Index> :: |p| <= 3 && TableAt(m, p).Some? ==>
          Taken(m.used, TableAt(m, p).value) && (p != [] ==> TableAt(m, p).value != 0))
    && (forall p: seq<Index>, i: Index ::
          |p| <= 2 && TableAt(m, p).Some? && !m.frames[TableAt(m, p).value][i].present ==>
          !m.frames[TableAt(m, p).value][i].large)
    && Taken(m.used, 0)
  }

  lemma UniqueTable(m: Machine, p: seq<Index>, q: seq<Index>)
    requires Inv(m) && |p| <= 3 && |q| <= 3 && TableAt(m, p).Some?
    ensures TableAt(m, p) == TableAt(m, q) ==> p == q
  {
  }

  lemma TableIsTaken(m: Machine, p: seq<Index>)
    requires Inv(m) && |p| <= 3 && TableAt(m, p).Some?
    ensures Taken(m.used, TableAt(m, p).value)
  {
  }

  lemma AbsentNotLarge(m: Machine, p: seq<Index>, i: Index)
    requires Inv(m) && |p| <= 2 && TableAt(m, p).Some? && !m.frames[TableAt(m, p).value][i].present
    ensures !m.frames[TableAt(m, p).value][i].large
  {
  }

  ghost predicate IsTable(m: Machine, f: nat) {
    exists p: seq<Index> :: |p| <= 3 && TableAt(m, p) == Some(f)
  }

  ghost function Tables(m: Machine): set<nat> {
    set f: nat | f < FRAMES && IsTable(m, f)
  }

  /** No path gained or lost the right to write. */
  ghost predicate SameRights(m: Machine, m': Machine) {
    forall q: seq<Index> :: |q| == 4 ==> PathWritable(m', q) == PathWritable(m, q)
  }

  ghost predicate SameTranslation(m: Machine, m': Machine) {
    && (forall q: seq<Index> :: |q| == 4 ==> Translate(m', q) == Translate(m, q))
    && SameRights(m, m')
  }

  /** From `m` to `m'` exactly the new tables were taken from the physical allocator. */
  ghost predicate PaidForTables(m: Machine, m': Machine) {
    && |m'.used| == |m.used| && m'.root == m.root
    && Tables(m) <= Tables(m')
    && UsedSet(m.used) !! Tables(m') - Tables(m)
    && UsedSet(m'.used) == UsedSet(m.used) + (Tables(m') - Tables(m))
  }

  lemma PaidForTablesTransitive(a: Machine, b: Machine, c: Machine)
    requires PaidForTables(a, b) && PaidForTables(b, c)
    ensures PaidForTables(a, c)
  {
    assert Tables(c) - Tables(a) == (Tables(c) - Tables(b)) + (Tables(b) - Tables(a));
  }

  // ----- linking a new table -----

  /** `m'` is `m` with the free frame `f` cleared and linked below entry `i` of the table at `p`. */
  ghost predicate Linked(m: Machine, m': Machine, p: seq<Index>, i: Index, f: Frame) {
    && |p| <= 2 && TableAt(m, p).Some? && f < |m.used| && !m.used[f]
    && var t := TableAt(m, p).value;
    && !m.frames[t][i].present
    && m'.root == m.root && m'.used == m.used[f := true]
    && m'.frames[f] == ClearedTable()
    && m'.frames[t] == m.frames[t][i := m.frames[t][i].(present := true, writable := true, frame := f)]
    && forall g: Frame :: g != f && g != t ==> m'.frames[g] == m.frames[g]
  }

  lemma {:induction false} LinkedTableAt(m: Machine, m': Machine, p: seq<Index>, i: Index, f: Frame, q: seq<Index>)
    requires Inv(m) && Linked(m, m', p, i, f) && |p| <= 2 && |q| <= 3
    ensures TableAt(m', q) == if q == p + [i] then Some(f) else TableAt(m, q)
    decreases |q|
  {
    hide Inv, Linked;
    LinkedRoot(m, m', p, i, f);
    if q != [] {
      var up, x := q[..|q| - 1], q[|q| - 1];
      LinkedTableAt(m, m', p, i, f, up);
      assert q == up + [x];
      SnocEqual(up, x, p, i);
      if up == p + [i] {
        assert TableAt(m, up).None?;
      } else if TableAt(m, up).Some? {
        LinkedEntry(m, m', p, i, f, up, x);
      }
    }
  }

  lemma LinkedRoot(m: Machine, m': Machine, p: seq<Index>, i: Index, f: Frame)
    requires Linked(m, m', p, i, f)
    ensures |p| <= 2 && m'.root == m.root && TableAt(m, p).Some? && TableAt(m, p + [i]).None?
            && m'.frames[f] == ClearedTable()
  {
    assert (p + [i])[..|p|] == p;
  }

  /** Of the entries of the old tables only the linked one changed. */
  lemma LinkedEntry(m: Machine, m': Machine, p: seq<Index>, i: Index, f: Frame, q: seq<Index>, x: Index)
    requires Inv(m) && Linked(m, m', p, i, f) && |q| <= 3 && TableAt(m, q).Some?
    ensures var e, e' := m.frames[TableAt(m, q).value][x], m'.frames[TableAt(m, q).value][x];
            if q == p && x == i then !e.present && e'.present && e'.writable && !e'.large && e'.frame == f else e' == e
  {
    hide Inv;
    TableIsTaken(m, q);
    TableIsTaken(m, p);
    UniqueTable(m, q, p);
    AbsentNotLarge(m, p, i);
  }

  lemma SnocEqual(a: seq<Index>, x: Index, b: seq<Index>, y: Index)
    ensures a + [x] == b + [y] <==> a == b && x == y
  {
    assert (a + [x])[..|a|] == a && (b + [y])[..|b|] == b;
    assert (a + [x])[|a|] == x && (b + [y])[|b|] == y;
  }

  /** Linking a table leaves the right to write of every path: the new entry is writable. */
  lemma LinkedRights(m: Machine, m': Machine, p: seq<Index>, i: Index, f: Frame, q: seq<Index>)
    requires Inv(m) && Linked(m, m', p, i, f) && 1 <= |q| <= 3
    ensures LinkWritable(m', q) == LinkWritable(m, q)
  {
    hide Inv, Linked;
    var up, x := q[..|q| - 1], q[|q| - 1];
    assert q == up + [x];
    LinkedRoot(m, m', p, i, f);
    LinkedTableAt(m, m', p, i, f, q);
    LinkedTableAt(m, m', p, i, f, up);
    SnocEqual(up, x, p, i);
    if TableAt(m, up).Some? {
      LinkedEntry(m, m', p, i, f, up, x);
    }
  }

  /** The entries on the first `d` levels of a path, all present, are all writable. */
  function UpperWritable(m: Machine, q: seq<Index>, d: nat): bool
    requires d <= |q| && TableAt(m, q[..d]).Some?
    decreases d
  {
    if d == 0 then true
    else
      assert q[..d][..d - 1] == q[..d - 1];
      UpperWritable(m, q, d - 1) && m.frames[TableAt(m, q[..d - 1]).value][q[d - 1]].writable
  }

  /** A walk that starts at the table of a prefix is the tail of the whole walk. */
  lemma {:induction false} WalkFromPrefix(m: Machine, q: seq<Index>, d: nat)
    requires |q| == 4 && d <= 3 && TableAt(m, q[..d]).Some?
    ensures Translate(m, q) == HardwareWalk(m, TableAt(m, q[..d]).value, q[d..], UpperWritable(m, q, d))
    decreases d
  {
    if d == 0 {
      assert q[..0] == [] && q[0..] == q;
    } else {
      assert q[..d][..d - 1] == q[..d - 1];
      WalkFromPrefix(m, q, d - 1);
      assert q[d - 1..][1..] == q[d..];
    }
  }

  lemma {:induction false} LinkedWalk(m: Machine, m': Machine, p: seq<Index>, i: Index, f: Frame, q: seq<Index>,
                                      d: nat, w: bool)
    requires Inv(m) && Linked(m, m', p, i, f) && |p| <= 2 && |q| == 4 && d <= 3
    requires TableAt(m, q[..d]).Some?
    ensures HardwareWalk(m', TableAt(m, q[..d]).value, q[d..], w)
            == HardwareWalk(m, TableAt(m, q[..d]).value, q[d..], w)
    decreases 4 - d
  {
    hide Inv, Linked;
    var g := TableAt(m, q[..d]).value;
    assert q[d..][1..] == q[d + 1..] && q[..d + 1][..d] == q[..d];
    LinkedRoot(m, m', p, i, f);
    LinkedEntry(m, m', p, i, f, q[..d], q[d]);
    if q[..d] == p && q[d] == i {
      assert HardwareWalk(m', f, q[d + 1..], w && m'.frames[g][q[d]].writable) == Unmapped;
    } else if d < 3 && TableAt(m, q[..d + 1]).Some? {
      LinkedWalk(m, m', p, i, f, q, d + 1, w && m.frames[g][q[d]].writable);
    }
  }

  /** The tables after linking: the old ones at their old paths, and `f` at the new path. */
  ghost predicate OneMoreTable(m: Machine, m': Machine, path: seq<Index>, f: Frame) {
    forall q: seq<Index> :: |q| <= 3 ==> TableAt(m', q) == if q == path then Some(f) else TableAt(m, q)
  }

  lemma LinkedTranslation(m: Machine, m': Machine, p: seq<Index>, i: Index, f: Frame)
    requires Inv(m) && Linked(m, m', p, i, f)
    ensures SameTranslation(m, m')
  {
    LinkedRoot(m, m', p, i, f);
    hide Inv, Linked, HardwareWalk, LinkWritable;
    forall q: seq<Index> | |q| == 4
      ensures Translate(m', q) == Translate(m, q) && PathWritable(m', q) == PathWritable(m, q)
    {
      assert q[..0] == [] && q[0..] == q;
      LinkedWalk(m, m', p, i, f, q, 0, true);
      LinkedRights(m, m', p, i, f, q[..1]);
      LinkedRights(m, m', p, i, f, q[..2]);
      LinkedRights(m, m', p, i, f, q[..3]);
    }
  }

  lemma LinkedInv(m: Machine, m': Machine, p: seq<Index>, i: Index, f: Frame)
    requires Inv(m) && Linked(m, m', p, i, f)
    ensures Inv(m') && OneMoreTable(m, m', p + [i], f)
    ensures SameTranslation(m, m') && PaidForTables(m, m')
  {
    forall q: seq<Index> | |q| <= 3
      ensures TableAt(m', q) == if q == p + [i] then Some(f) else TableAt(m, q)
    {
      LinkedTableAt(m, m', p, i, f, q);
    }
    LinkedTranslation(m, m', p, i, f);
    assert (p + [i])[..|p|] == p && TableAt(m, p + [i]).None?;
    LinkedKeepsInv(m, m', p, i, f);
    LinkedIsPaid(m, m', p + [i], f);
  }

  lemma LinkedKeepsInv(m: Machine, m': Machine, p: seq<Index>, i: Index, f: Frame)
    requires Inv(m) && Linked(m, m', p, i, f) && OneMoreTable(m, m', p + [i], f)
    ensures Inv(m')
  {
    assert f != 0;
    forall q: seq<Index>, x: Index | |q| <= 2 && TableAt(m', q).Some? && !m'.frames[TableAt(m', q).value][x].present
      ensures !m'.frames[TableAt(m', q).value][x].large
    {
      if q != p + [i] && TableAt(m, q).value != TableAt(m, p).value {
        assert m'.frames[TableAt(m, q).value] == m.frames[TableAt(m, q).value];
      }
    }
    forall q: seq<Index>, r: seq<Index> | |q| <= 3 && |r| <= 3 && TableAt(m', q).Some?
        && TableAt(m', q) == TableAt(m', r)
      ensures q == r
    {
      assert Taken(m.used, f) ==> false;
    }
  }

  lemma LinkedIsPaid(m: Machine, m': Machine, path: seq<Index>, f: Frame)
    requires Inv(m) && |path| <= 3 && TableAt(m, path).None? && OneMoreTable(m, m', path, f)
    requires f < |m.used| && !m.used[f] && m'.used == m.used[f := true] && m'.root == m.root
    ensures PaidForTables(m, m')
  {
    forall x: nat
      ensures IsTable(m', x) <==> IsTable(m, x) || x == f
    {
      if q: seq<Index> :| |q| <= 3 && TableAt(m, q) == Some(x) {
        assert TableAt(m', q) == Some(x);
      }
      if x == f {
        assert TableAt(m', path) == Some(x);
      }
    }
    assert Tables(m') == Tables(m) + {f};
    assert !IsTable(m, f) by {
      assert !Taken(m.used, f);
    }
    assert UsedSet(m'.used) == UsedSet(m.used) + {f};
  }

  /** The three ways one level of the walk can end. */
  lemma NextCases(m: Machine, p: seq<Index>, i: Index)
    requires Inv(m) && |p| <= 2 && TableAt(m, p).Some?
    requires var e := m.frames[TableAt(m, p).value][i]; !(e.present && e.large)
    ensures var t := TableAt(m, p).value;
            var (m', f) := GetOrCreateNextTable(m, t, i);
            if m.frames[t][i].present then
              m' == m && f != 0 && TableAt(m, p + [i]) == Some(f)
            else
              TableAt(m, p + [i]) == None
              && (if FreeCount(m.used) == 0 then m' == m && f == 0 else f != 0 && Linked(m, m', p, i, f))
  {
    hide FreeCount;
    var t := TableAt(m, p).value;
    assert (p + [i])[..|p|] == p && (p + [i])[|p|] == i;
    FreshPage(m.used);
    NoFreePage(m.used);
    hide FirstRun, FindRun, IsFreeRun, UsedSet;
    var (m', f) := GetOrCreateNextTable(m, t, i);
    if m.frames[t][i].present {
      assert TableAt(m, p + [i]).value != 0;
    } else if f != 0 {
      FreshIsOther(m, p, f);
    }
  }

  lemma FreshIsOther(m: Machine, p: seq<Index>, f: nat)
    requires Inv(m) && |p| <= 2 && TableAt(m, p).Some? && f < |m.used| && !m.used[f]
    ensures f != TableAt(m, p).value && f != 0
  {
    hide TableAt;
  }

  /** One level of the walk: fails with nothing changed, or ends at the table below. */
  lemma NextTable(m: Machine, p: seq<Index>, i: Index)
    requires Inv(m) && |p| <= 2 && TableAt(m, p).Some?
    requires var e := m.frames[TableAt(m, p).value][i]; !(e.present && e.large)
    ensures var (m', f) := GetOrCreateNextTable(m, TableAt(m, p).value, i);
            && Inv(m') && SameTranslation(m, m') && PaidForTables(m, m')
            && (f == 0 ==> m' == m)
            && (f != 0 ==> TableAt(m', p + [i]) == Some(f))
            && (m.frames[TableAt(m, p).value][i].present ==> f != 0 && m' == m)
  {
    NextCases(m, p, i);
    PaidForNoTables(m);
    var t := TableAt(m, p).value;
    hide GetOrCreateNextTable, Inv, Linked, PaidForTables, TableAt, SameTranslation, OneMoreTable, FreeCount;
    var (m', f) := GetOrCreateNextTable(m, t, i);
    if !m.frames[t][i].present && f != 0 {
      LinkedInv(m, m', p, i, f);
      NewTableAt(m, m', p + [i], f);
    }
  }

  lemma NewTableAt(m: Machine, m': Machine, path: seq<Index>, f: Frame)
    requires |path| <= 3 && OneMoreTable(m, m', path, f)
    ensures TableAt(m', path) == Some(f)
  {
    hide TableAt;
  }

  lemma PaidForNoTables(m: Machine)
    ensures PaidForTables(m, m) && SameTranslation(m, m)
  {
  }

  /** The page cost of one level: nothing when the table exists, one page when it is created. */
  lemma NextTableCost(m: Machine, p: seq<Index>, i: Index)
    requires Inv(m) && |p| <= 2 && TableAt(m, p).Some?
    requires var e := m.frames[TableAt(m, p).value][i]; !(e.present && e.large)
    ensures var (m', f) := GetOrCreateNextTable(m, TableAt(m, p).value, i);
            && (f == 0 <==> TableAt(m, p + [i]).None? && FreeCount(m.used) == 0)
            && (f != 0 ==> FreeCount(m'.used) == FreeCount(m.used) - (if TableAt(m, p + [i]).None? then 1 else 0))
            && (forall q: seq<Index> :: |q| <= 3 && q != p + [i] ==> TableAt(m', q) == TableAt(m, q))
  {
    NextCases(m, p, i);
    var t := TableAt(m, p).value;
    hide GetOrCreateNextTable, Inv, Linked, TableAt, FreeCount;
    var (m', f) := GetOrCreateNextTable(m, t, i);
    if !m.frames[t][i].present && f != 0 {
      LinkedInv(m, m', p, i, f);
      LinkedBits(m, m', p, i, f);
      MarkCosts(m.used, f);
    }
  }

  lemma LinkedBits(m: Machine, m': Machine, p: seq<Index>, i: Index, f: Frame)
    requires Linked(m, m', p, i, f)
    ensures f < |m.used| && !m.used[f] && m'.used == m.used[f := true]
  {
  }

  /** The allocator refuses one page exactly when no page is free. */
  lemma NoFreePage(used: PageBits)
    ensures PmmSpec.Malloc(used, PAGE_SIZE).1.None? <==> FreeCount(used) == 0
  {
    UsedSetBound(used);
    PageRangeSize(0, |used|);
    SubsetSize(UsedSet(used), PageRange(0, |used|));
    var free := PageRange(0, |used|) - UsedSet(used);
    if f :| f in free {
      assert IsFreeRun(used, f, 1);
      assert |free| > 0;
    } else {
      assert free == {};
    }
    var r := FirstRun(used, 1);
    assert r.Some? ==> r.value in free;
  }

  lemma MarkCosts(used: PageBits, f: nat)
    requires f < |used| && !used[f]
    ensures UsedSet(used[f := true]) == UsedSet(used) + {f}
    ensures FreeCount(used[f := true]) == FreeCount(used) - 1
  {
    assert UsedSet(used[f := true]) == UsedSet(used) + {f};
  }

  /** On the path of a page that no large entry covers, no entry above the leaf is large. */
  lemma NotLargeOnPath(m: Machine, q: seq<Index>, d: nat)
    requires |q| == 4 && d <= 2 && !Translate(m, q).Huge? && TableAt(m, q[..d]).Some?
    ensures var e := m.frames[TableAt(m, q[..d]).value][q[d]]; !(e.present && e.large)
  {
    WalkFromPrefix(m, q, d);
  }

  /** How many tables `page_walk` has to create below depth `d` of a path. */
  function MissingTables(m: Machine, q: seq<Index>, d: nat): nat
    requires |q| == 4 && d <= 3
    decreases 3 - d
  {
    if d == 3 then 0 else (if TableAt(m, q[..d + 1]).None? then 1 else 0) + MissingTables(m, q, d + 1)
  }

  /** One level of the walk of a page that no large entry covers. */
  lemma LevelPreserves(m: Machine, q: seq<Index>, d: nat)
    requires Inv(m) && |q| == 4 && d <= 2 && !Translate(m, q).Huge? && TableAt(m, q[..d]).Some?
    ensures var (m', f) := GetOrCreateNextTable(m, TableAt(m, q[..d]).value, q[d]);
            && Inv(m') && SameTranslation(m, m') && PaidForTables(m, m') && !Translate(m', q).Huge?
            && (f == 0 ==> m' == m)
            && (f != 0 ==> TableAt(m', q[..d + 1]) == Some(f))
            && (TableAt(m, q[..d + 1]).Some? ==> f != 0 && m' == m)
  {
    hide Inv, HardwareWalk, PaidForTables;
    assert q[..d + 1] == q[..d] + [q[d]] && q[..d + 1][..d] == q[..d];
    NotLargeOnPath(m, q, d);
    NextTable(m, q[..d], q[d]);
  }

  /** `page_walk` never changes a translation; what it finds is the lowest table of the path. */
  lemma WalkPreserves(m: Machine, v: nat)
    requires Inv(m) && !Translate(m, Path(v)).Huge?
    ensures var (m', r) := PageWalk(m, v);
            && Inv(m') && SameTranslation(m, m') && PaidForTables(m, m')
            && (r.Some? ==> TableAt(m', Path(v)[..3]) == r)
  {
    hide Inv, GetOrCreateNextTable, PaidForTables, HardwareWalk;
    var q := Path(v);
    assert q[..0] == [];
    LevelPreserves(m, q, 0);
    var (m1, t1) := GetOrCreateNextTable(m, m.root, q[0]);
    if t1 != 0 {
      LevelPreserves(m1, q, 1);
      var (m2, t2) := GetOrCreateNextTable(m1, t1, q[1]);
      PaidForTablesTransitive(m, m1, m2);
      if t2 != 0 {
        LevelPreserves(m2, q, 2);
        var (m3, t3) := GetOrCreateNextTable(m2, t2, q[2]);
        PaidForTablesTransitive(m, m2, m3);
      }
    }
  }

  lemma {:induction false} SameMissing(m: Machine, m': Machine, q: seq<Index>, d: nat)
    requires |q| == 4 && d <= 3
    requires forall e :: d < e <= 3 ==> TableAt(m', q[..e]) == TableAt(m, q[..e])
    ensures MissingTables(m', q, d) == MissingTables(m, q, d)
    decreases 3 - d
  {
    if d < 3 {
      SameMissing(m, m', q, d + 1);
    }
  }

  /** Descending one level spends exactly the pages by which the number of missing tables drops. */
  lemma LevelCost(m: Machine, q: seq<Index>, d: nat)
    requires Inv(m) && |q| == 4 && d <= 2 && !Translate(m, q).Huge? && TableAt(m, q[..d]).Some?
    ensures var (m', f) := GetOrCreateNextTable(m, TableAt(m, q[..d]).value, q[d]);
            && Inv(m') && !Translate(m', q).Huge?
            && (f == 0 ==> m' == m && FreeCount(m.used) == 0 < MissingTables(m, q, d))
            && (f != 0 ==> TableAt(m', q[..d + 1]) == Some(f)
                           && FreeCount(m'.used) - MissingTables(m', q, d + 1)
                              == FreeCount(m.used) - MissingTables(m, q, d))
  {
    hide Inv, GetOrCreateNextTable, HardwareWalk, TableAt, FreeCount, Tables, UsedSet;
    assert q[..d + 1] == q[..d] + [q[d]];
    LevelPreserves(m, q, d);
    NotLargeOnPath(m, q, d);
    NextTableCost(m, q[..d], q[d]);
    var (m', f) := GetOrCreateNextTable(m, TableAt(m, q[..d]).value, q[d]);
    if f != 0 {
      forall e | d + 1 < e <= 3
        ensures TableAt(m', q[..e]) == TableAt(m, q[..e])
      {
        assert |q[..e]| != |q[..d + 1]|;
      }
      SameMissing(m, m', q, d + 1);
    }
  }

  /** The walk succeeds exactly when there is a free page for every missing table, and uses just those. */
  lemma WalkCost(m: Machine, v: nat)
    requires Inv(m) && !Translate(m, Path(v)).Huge?
    ensures var (m', r) := PageWalk(m, v);
            && (r.Some? <==> FreeCount(m.used) >= MissingTables(m, Path(v), 0))
            && FreeCount(m'.used) == if r.Some? then FreeCount(m.used) - MissingTables(m, Path(v), 0) else 0
  {
    hide Inv, GetOrCreateNextTable, HardwareWalk;
    var q := Path(v);
    assert q[..0] == [];
    LevelCost(m, q, 0);
    var (m1, t1) := GetOrCreateNextTable(m, m.root, q[0]);
    if t1 != 0 {
      LevelCost(m1, q, 1);
      var (m2, t2) := GetOrCreateNextTable(m1, t1, q[1]);
      if t2 != 0 {
        LevelCost(m2, q, 2);
      }
    }
  }

  /** A mapped page has all its tables. */
  lemma {:induction false} TablesOfMapped(m: Machine, q: seq<Index>, d: nat)
    requires |q| == 4 && d <= 3 && Translate(m, q).Page?
    ensures TableAt(m, q[..d]).Some?
    decreases d
  {
    if d > 0 {
      TablesOfMapped(m, q, d - 1);
      WalkFromPrefix(m, q, d - 1);
      assert q[..d][..d - 1] == q[..d - 1];
    }
  }

  /** The walk of a mapped page finds its table without changing anything. */
  lemma WalkOfMapped(m: Machine, v: nat)
    requires Inv(m) && Translate(m, Path(v)).Page?
    ensures var (m', r) := PageWalk(m, v);
            && m' == m && r.Some? && TableAt(m, Path(v)[..3]) == r
            && m.frames[r.value][PtIndex(v)].present
            && m.frames[r.value][PtIndex(v)].frame == Translate(m, Path(v)).frame
  {
    var q := Path(v);
    assert q[..0] == [] && q[0] == Pml4Index(v) && q[1] == PdptIndex(v) && q[2] == PdIndex(v) && q[3] == PtIndex(v);
    LeafOfMapped(m, q);
    hide Path;
    TablesOfMapped(m, q, 1);
    TablesOfMapped(m, q, 2);
    TablesOfMapped(m, q, 3);
    RootTable(m, q);
    StepDown(m, q, 0);
    StepDown(m, q, 1);
    StepDown(m, q, 2);
    hide Inv, GetOrCreateNextTable, TableAt, Translate;
  }

  /** Where the table below exists, one level of the walk goes there and changes nothing. */
  lemma StepDown(m: Machine, q: seq<Index>, d: nat)
    requires Inv(m) && |q| == 4 && d <= 2 && TableAt(m, q[..d]).Some? && TableAt(m, q[..d + 1]).Some?
    ensures GetOrCreateNextTable(m, TableAt(m, q[..d]).value, q[d]) == (m, TableAt(m, q[..d + 1]).value)
    ensures TableAt(m, q[..d + 1]).value != 0
  {
    assert q[..d + 1][..d] == q[..d] && q[..d + 1][d] == q[d];
    NoTableZero(m, q[..d + 1]);
    hide Inv;
  }

  lemma NoTableZero(m: Machine, p: seq<Index>)
    requires Inv(m) && 1 <= |p| <= 3 && TableAt(m, p).Some?
    ensures TableAt(m, p).value != 0
  {
    hide TableAt;
  }

  lemma RootTable(m: Machine, q: seq<Index>)
    ensures TableAt(m, q[..0]) == Some(m.root)
  {
  }

  /** The leaf entry of a mapped page. */
  lemma LeafOfMapped(m: Machine, q: seq<Index>)
    requires |q| == 4 && Translate(m, q).Page?
    ensures TableAt(m, q[..3]).Some?
    ensures var e := m.frames[TableAt(m, q[..3]).value][q[3]]; e.present && e.frame == Translate(m, q).frame
  {
    TablesOfMapped(m, q, 3);
    hide Translate, TableAt, UpperWritable;
    WalkFromPrefix(m, q, 3);
  }

  // ----- writing a leaf entry -----

  lemma {:induction false} LeafTableAt(m: Machine, p: seq<Index>, i: Index, e: Entry, q: seq<Index>)
    requires Inv(m) && |p| == 3 && TableAt(m, p).Some? && |q| <= 3
    ensures TableAt(SetEntry(m, TableAt(m, p).value, i, e), q) == TableAt(m, q)
    decreases |q|
  {
    if q != [] {
      LeafTableAt(m, p, i, e, q[..|q| - 1]);
    }
  }

  lemma LeafTranslate(m: Machine, p: seq<Index>, i: Index, e: Entry, q: seq<Index>)
    requires Inv(m) && |p| == 3 && TableAt(m, p).Some? && |q| == 4
    ensures Translate(SetEntry(m, TableAt(m, p).value, i, e), q) ==
            if q == p + [i] then
              (if e.present then Page(e.frame, PathWritable(m, q) && e.writable, e.cacheOff) else Unmapped)
            else Translate(m, q)
  {
    hide Inv, LinkWritable;
    if q == p + [i] {
      var m' := SetEntry(m, TableAt(m, p).value, i, e);
      assert q[..3] == p && q[3..] == [i];
      LeafTableAt(m, p, i, e, p);
      WalkFromPrefix(m', q, 3);
      UpperIsRight(m', q);
      LeafRights(m, p, i, e, q);
    } else {
      assert q[..0] == [] && q[0..] == q;
      LeafWalk(m, p, i, e, q, 0, true);
    }
  }

  /** When all tables of a path exist, its right to write is that of the entries on the way. */
  lemma UpperIsRight(m: Machine, q: seq<Index>)
    requires |q| == 4 && TableAt(m, q[..3]).Some?
    ensures UpperWritable(m, q, 3) == PathWritable(m, q)
  {
    assert q[..3][..2] == q[..2] && q[..2][..1] == q[..1] && q[..1][..0] == q[..0];
    assert q[..3][2] == q[2] && q[..2][1] == q[1] && q[..1][0] == q[0];
    assert q[..0] == [];
  }

  /** A leaf entry is no link, so writing it leaves the right to write of every path. */
  lemma LeafRights(m: Machine, p: seq<Index>, i: Index, e: Entry, q: seq<Index>)
    requires Inv(m) && |p| == 3 && TableAt(m, p).Some? && |q| == 4
    ensures PathWritable(SetEntry(m, TableAt(m, p).value, i, e), q) == PathWritable(m, q)
  {
    hide Inv, SetEntry, LinkWritable;
    LeafLink(m, p, i, e, q[..1]);
    LeafLink(m, p, i, e, q[..2]);
    LeafLink(m, p, i, e, q[..3]);
  }

  lemma LeafLink(m: Machine, p: seq<Index>, i: Index, e: Entry, r: seq<Index>)
    requires Inv(m) && |p| == 3 && TableAt(m, p).Some? && 1 <= |r| <= 3
    ensures LinkWritable(SetEntry(m, TableAt(m, p).value, i, e), r) == LinkWritable(m, r)
  {
    hide Inv;
    LeafTableAt(m, p, i, e, r);
    LeafTableAt(m, p, i, e, r[..|r| - 1]);
    UniqueTable(m, p, r[..|r| - 1]);
  }

  lemma {:induction false} LeafWalk(m: Machine, p: seq<Index>, i: Index, e: Entry, q: seq<Index>, d: nat, w: bool)
    requires Inv(m) && |p| == 3 && TableAt(m, p).Some? && |q| == 4 && q != p + [i] && d <= 3 && TableAt(m, q[..d]).Some?
    ensures HardwareWalk(SetEntry(m, TableAt(m, p).value, i, e), TableAt(m, q[..d]).value, q[d..], w) ==
            HardwareWalk(m, TableAt(m, q[..d]).value, q[d..], w)
    decreases 4 - d
  {
    hide Inv;
    assert q[..d + 1][..d] == q[..d] && q[d..][1..] == q[d + 1..];
    UniqueTable(m, p, q[..d]);
    if q[..d] == p {
      assert q == p + [q[3]];
    }
    if d < 3 && TableAt(m, q[..d + 1]).Some? {
      LeafWalk(m, p, i, e, q, d + 1, w && m.frames[TableAt(m, q[..d]).value][q[d]].writable);
    }
  }

  lemma LeafInv(m: Machine, p: seq<Index>, i: Index, e: Entry)
    requires Inv(m) && |p| == 3 && TableAt(m, p).Some?
    ensures var m' := SetEntry(m, TableAt(m, p).value, i, e);
            Inv(m') && Tables(m') == Tables(m)
  {
    var m' := SetEntry(m, TableAt(m, p).value, i, e);
    forall q: seq<Index> | |q| <= 3
      ensures TableAt(m', q) == TableAt(m, q)
    {
      LeafTableAt(m, p, i, e, q);
    }
    assert forall f: nat :: IsTable(m', f) == IsTable(m, f);
  }

  // ----- main results about single pages -----

  ghost predicate SameExcept(m: Machine, m': Machine, v: nat) {
    && (forall q: seq<Index> :: |q| == 4 && q != Path(v) ==> Translate(m', q) == Translate(m, q))
    && SameRights(m, m')
  }

  /**
   * `map_page` refines an update of the flat map: true means that exactly the page of `v` now goes
   * to the frame of `p` with the requested flags, as far as no table on the way was linked read-only;
   * false means that no translation changed. No path gains or loses the right to write.
   */
  lemma MapPageRefines(m: Machine, v: nat, p: nat, flags: Flags)
    requires Inv(m) && !Translate(m, Path(v)).Huge?
    ensures var (m', ok) := MapPage(m, v, p, flags);
            && Inv(m') && PaidForTables(m, m')
            && SameExcept(m, m', v)
            && Translate(m', Path(v)) ==
                 (if ok then Page(p / PAGE_SIZE % FRAMES, PathWritable(m, Path(v)) && flags.write, flags.cacheDisable)
                  else Translate(m, Path(v)))
  {
    hide Inv, Translate, PageWalk, PathWritable, Tables, UsedSet, Path, TableAt, SetEntry, SameTranslation,
      PaidForTables, SameExcept;
    WalkPreserves(m, v);
    ExceptNothing(m, PageWalk(m, v).0, v);
    var (m1, r) := PageWalk(m, v);
    if r.Some? {
      var e := m1.frames[r.value][PtIndex(v)].(present := true, writable := flags.write, cacheOff := flags.cacheDisable,
                                               frame := p / PAGE_SIZE % FRAMES);
      WriteLeaf(m1, v, e);
      AfterLeaf(m, m1, SetEntry(m1, r.value, PtIndex(v), e), v);
    }
  }

  /** A machine with the same translations is one that differs at most at one page. */
  lemma ExceptNothing(m: Machine, m1: Machine, v: nat)
    requires SameTranslation(m, m1)
    ensures SameExcept(m, m1, v)
    ensures Translate(m1, Path(v)) == Translate(m, Path(v)) && PathWritable(m1, Path(v)) == PathWritable(m, Path(v))
  {
    hide Translate, PathWritable, Path;
  }

  /** The walk and the leaf write together. */
  lemma AfterLeaf(m: Machine, m1: Machine, m2: Machine, v: nat)
    requires SameTranslation(m, m1) && PaidForTables(m, m1) && SameExcept(m1, m2, v)
    requires Tables(m2) == Tables(m1) && m2.used == m1.used && m2.root == m1.root
    ensures SameExcept(m, m2, v) && PaidForTables(m, m2)
  {
    hide Translate, PathWritable, Path, Tables, UsedSet;
  }

  /** `map_page` is true exactly when the free pages suffice for the missing tables; else none is left. */
  lemma MapPageSucceeds(m: Machine, v: nat, p: nat, flags: Flags)
    requires Inv(m) && !Translate(m, Path(v)).Huge?
    ensures var (m', ok) := MapPage(m, v, p, flags);
            && (ok <==> FreeCount(m.used) >= MissingTables(m, Path(v), 0))
            && FreeCount(m'.used) == if ok then FreeCount(m.used) - MissingTables(m, Path(v), 0) else 0
  {
    WalkCost(m, v);
  }

  lemma FreePageRefines(m: Machine, v: nat)
    requires Inv(m) && !Translate(m, Path(v)).Huge?
    ensures var (m', ok) := FreePage(m, v);
            && Inv(m') && PaidForTables(m, m')
            && SameExcept(m, m', v)
            && Translate(m', Path(v)) == (if ok then Unmapped else Translate(m, Path(v)))
            && m'.root == m.root
            && (Translate(m, Path(v)).Page? ==> ok && m'.used == m.used && Tables(m') == Tables(m))
  {
    hide Inv, Translate, PageWalk, PathWritable, Tables, UsedSet, Path, TableAt, SetEntry, SameTranslation,
      PaidForTables, SameExcept;
    WalkPreserves(m, v);
    ExceptNothing(m, PageWalk(m, v).0, v);
    RootKept(m, PageWalk(m, v).0);
    var (m1, r) := PageWalk(m, v);
    if r.Some? {
      WriteLeaf(m1, v, ZERO);
      AfterLeaf(m, m1, SetEntry(m1, r.value, PtIndex(v), ZERO), v);
    }
    if Translate(m, Path(v)).Page? {
      WalkOfMapped(m, v);
    }
  }

  lemma RootKept(m: Machine, m1: Machine)
    requires PaidForTables(m, m1)
    ensures m1.root == m.root
  {
  }

  lemma WriteLeaf(m: Machine, v: nat, e: Entry)
    requires Inv(m) && TableAt(m, Path(v)[..3]).Some?
    ensures var m' := SetEntry(m, TableAt(m, Path(v)[..3]).value, PtIndex(v), e);
            && Inv(m') && Tables(m') == Tables(m) && m'.used == m.used && m'.root == m.root && SameExcept(m, m', v)
            && Translate(m', Path(v)) ==
                 if e.present then Page(e.frame, PathWritable(m, Path(v)) && e.writable, e.cacheOff) else Unmapped
  {
    var p := Path(v)[..3];
    assert Path(v) == p + [PtIndex(v)];
    LeafInv(m, p, PtIndex(v), e);
    forall q: seq<Index> | |q| == 4
      ensures Translate(SetEntry(m, TableAt(m, p).value, PtIndex(v), e), q) ==
              if q == Path(v) then
                (if e.present then Page(e.frame, PathWritable(m, q) && e.writable, e.cacheOff) else Unmapped)
              else Translate(m, q)
      ensures PathWritable(SetEntry(m, TableAt(m, p).value, PtIndex(v), e), q) == PathWritable(m, q)
    {
      LeafTranslate(m, p, PtIndex(v), e, q);
      LeafRights(m, p, PtIndex(v), e, q);
    }
  }
}
