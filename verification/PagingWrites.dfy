/** What the page walk, `map_page` and `free_page` write to memory: page tables only, and there their own fields. */
module PageWrites {
  import opened Arith
  import opened PageTables

  /** No frame was written that is not a page table afterwards. */
  ghost predicate OnlyTablesWritten(m: Machine, m': Machine) {
    && (forall t: Frame :: IsTable(m, t) ==> IsTable(m', t))
    && (forall t: Frame :: !IsTable(m', t) ==> m'.frames[t] == m.frames[t])
  }

  /** The entries of the tables that were there keep the fields that the kernel does not set. */
  ghost predicate OtherFieldsKept(m: Machine, m': Machine) {
    forall t: Frame, i: Index :: IsTable(m, t) ==>
      m'.frames[t][i].large == m.frames[t][i].large && m'.frames[t][i].rest == m.frames[t][i].rest
  }

  lemma WrittenTransitive(a: Machine, b: Machine, c: Machine)
    requires OnlyTablesWritten(a, b) && OnlyTablesWritten(b, c)
    ensures OnlyTablesWritten(a, c)
    ensures OtherFieldsKept(a, b) && OtherFieldsKept(b, c) ==> OtherFieldsKept(a, c)
  {
    hide IsTable;
  }

  lemma NothingWritten(m: Machine)
    ensures OnlyTablesWritten(m, m) && OtherFieldsKept(m, m)
  {
    hide IsTable;
  }

  lemma TablesStay(m: Machine, m': Machine)
    requires PaidForTables(m, m')
    ensures forall t: Frame :: IsTable(m, t) ==> IsTable(m', t)
  {
    hide IsTable;
    forall t: Frame | IsTable(m, t)
      ensures IsTable(m', t)
    {
      assert t in Tables(m) && t in Tables(m');
    }
  }

  lemma PathTable(m: Machine, p: seq<Index>)
    requires |p| <= 3 && TableAt(m, p).Some?
    ensures IsTable(m, TableAt(m, p).value)
  {
    hide TableAt;
  }

  lemma FreshIsNoTable(m: Machine, f: nat)
    requires Inv(m) && f < |m.used| && !m.used[f]
    ensures !IsTable(m, f)
  {
    if p: seq<Index> :| |p| <= 3 && TableAt(m, p) == Some(f) {
      TableIsTaken(m, p);
    }
  }

  /** One level of the walk. */
  lemma LevelWrites(m: Machine, p: seq<Index>, i: Index)
    requires Inv(m) && |p| <= 2 && TableAt(m, p).Some?
    requires var e := m.frames[TableAt(m, p).value][i]; !(e.present && e.large)
    ensures var m' := GetOrCreateNextTable(m, TableAt(m, p).value, i).0;
            OnlyTablesWritten(m, m') && OtherFieldsKept(m, m')
  {
    NothingWritten(m);
    NextCases(m, p, i);
    NextTable(m, p, i);
    var t := TableAt(m, p).value;
    var (m', f) := GetOrCreateNextTable(m, t, i);
    hide GetOrCreateNextTable, Inv, PaidForTables, SameTranslation, TableAt, IsTable, OnlyTablesWritten,
      OtherFieldsKept, Linked;
    if !m.frames[t][i].present && f != 0 {
      TablesStay(m, m');
      PathTable(m, p);
      PathTable(m', p + [i]);
      LinkedFresh(m, m', p, i, f);
      FreshIsNoTable(m, f);
      LinkedWrites(m, m', p, i, f);
    }
  }

  lemma LinkedFresh(m: Machine, m': Machine, p: seq<Index>, i: Index, f: Frame)
    requires Linked(m, m', p, i, f)
    ensures f < |m.used| && !m.used[f]
  {
  }

  lemma LinkedWrites(m: Machine, m': Machine, p: seq<Index>, i: Index, f: Frame)
    requires Linked(m, m', p, i, f) && IsTable(m', f) && !IsTable(m, f) && IsTable(m, TableAt(m, p).value)
    requires forall t: Frame :: IsTable(m, t) ==> IsTable(m', t)
    ensures OnlyTablesWritten(m, m') && OtherFieldsKept(m, m')
  {
    hide IsTable, TableAt;
  }

  lemma LevelOfPath(m: Machine, q: seq<Index>, d: nat)
    requires Inv(m) && |q| == 4 && d <= 2 && !Translate(m, q).Huge? && TableAt(m, q[..d]).Some?
    ensures var m' := GetOrCreateNextTable(m, TableAt(m, q[..d]).value, q[d]).0;
            OnlyTablesWritten(m, m') && OtherFieldsKept(m, m')
  {
    NotLargeOnPath(m, q, d);
    hide GetOrCreateNextTable, Inv, OnlyTablesWritten, OtherFieldsKept, Translate;
    LevelWrites(m, q[..d], q[d]);
  }

  /** The walk writes page tables only, and of the old ones only the fields that link a table. */
  lemma WalkWrites(m: Machine, v: nat)
    requires Inv(m) && !Translate(m, Path(v)).Huge?
    ensures var m' := PageWalk(m, v).0;
            OnlyTablesWritten(m, m') && OtherFieldsKept(m, m')
  {
    hide Inv, GetOrCreateNextTable, PaidForTables, HardwareWalk, OnlyTablesWritten, OtherFieldsKept, SameTranslation;
    var q := Path(v);
    assert q[..0] == [];
    LevelPreserves(m, q, 0);
    LevelOfPath(m, q, 0);
    var (m1, t1) := GetOrCreateNextTable(m, m.root, q[0]);
    if t1 != 0 {
      LevelPreserves(m1, q, 1);
      LevelOfPath(m1, q, 1);
      var (m2, t2) := GetOrCreateNextTable(m1, t1, q[1]);
      WrittenTransitive(m, m1, m2);
      if t2 != 0 {
        LevelOfPath(m2, q, 2);
        WrittenTransitive(m, m2, GetOrCreateNextTable(m2, t2, q[2]).0);
      }
    }
  }

  lemma LeafWrites(m: Machine, v: nat, e: Entry)
    requires Inv(m) && TableAt(m, Path(v)[..3]).Some?
    ensures var t := TableAt(m, Path(v)[..3]).value;
            var m' := SetEntry(m, t, PtIndex(v), e);
            && OnlyTablesWritten(m, m')
            && (e.large == m.frames[t][PtIndex(v)].large && e.rest == m.frames[t][PtIndex(v)].rest ==>
                  OtherFieldsKept(m, m'))
  {
    hide Inv, TableAt, IsTable, SameExcept, Translate, Path;
    WriteLeaf(m, v, e);
    PathTable(m, Path(v)[..3]);
    var m' := SetEntry(m, TableAt(m, Path(v)[..3]).value, PtIndex(v), e);
    forall t: Frame
      ensures IsTable(m', t) == IsTable(m, t)
    {
      assert t in Tables(m) <==> t in Tables(m');
    }
  }

  /** `map_page` writes page tables only, and of the entries that were there only the fields it is meant to set. */
  lemma MapPageWrites(m: Machine, v: nat, p: nat, flags: Flags)
    requires Inv(m) && !Translate(m, Path(v)).Huge?
    ensures var m' := MapPage(m, v, p, flags).0;
            OnlyTablesWritten(m, m') && OtherFieldsKept(m, m')
  {
    hide Inv, Translate, PageWalk, Path, TableAt, OnlyTablesWritten, OtherFieldsKept, SameTranslation, PaidForTables;
    WalkPreserves(m, v);
    WalkWrites(m, v);
    var (m1, r) := PageWalk(m, v);
    if r.Some? {
      var m2 := MapPage(m, v, p, flags).0;
      LeafWrites(m1, v, m2.frames[r.value][PtIndex(v)]);
      WrittenTransitive(m, m1, m2);
    }
  }

  /** `free_page` writes page tables only. */
  lemma FreePageWrites(m: Machine, v: nat)
    requires Inv(m) && !Translate(m, Path(v)).Huge?
    ensures OnlyTablesWritten(m, FreePage(m, v).0)
  {
    hide Inv, Translate, PageWalk, Path, TableAt, OnlyTablesWritten, OtherFieldsKept, SameTranslation, PaidForTables;
    WalkPreserves(m, v);
    WalkWrites(m, v);
    var (m1, r) := PageWalk(m, v);
    if r.Some? {
      LeafWrites(m1, v, ZERO);
      WrittenTransitive(m, m1, FreePage(m, v).0);
    }
  }
}
