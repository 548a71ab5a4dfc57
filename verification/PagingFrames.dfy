/** Taking and giving back whole frames: pages the kernel holds, page tables, directories
    and page contents, each keeping the invariant.
 */
module PagingFrames {
  import opened PageEntry
  import opened PagingModel
  import opened PagingInvariant
  import opened PagingLeaf

  /** Every entry of m' was there in m. */
  ghost predicate WalkWithin(m: Memory, m': Memory) {
    && (forall t, i: nat :: t in m'.space && i < ENTRIES && Pde(m', t, i).present ==>
          t in m.space && Pde(m', t, i) == Pde(m, t, i))
    && (forall t, i: nat, j: nat :: t in m'.space && i < USER_ENTRIES && j < ENTRIES && Pte(m', t, i, j).present ==>
          t in m.space && Pte(m', t, i, j) == Pte(m, t, i, j))
  }

  ghost predicate WalkSame(m: Memory, m': Memory) {
    && SameFrame(m, m')
    && (forall t, i: nat :: t in m.space && i < ENTRIES ==> Pde(m', t, i) == Pde(m, t, i))
    && (forall t, i: nat, j: nat :: t in m.space && i < USER_ENTRIES && j < ENTRIES ==>
          Pte(m', t, i, j) == Pte(m, t, i, j))
  }

  /** Writing a page that is neither a directory nor a table leaves the walk alone. */
  lemma Payload(m: Memory, m': Memory, g: nat)
    requires Shape(m) && Typed(m) && SameFrame(m, m')
    requires forall f :: 0 <= f < PAGING_PAGES && f != g ==> m'.phys[f] == m.phys[f]
    requires forall s :: Holds(m, s, g) ==> s.Leaf? || s.Kern?
    ensures WalkSame(m, m')
  {
    forall t, i: nat | t in m.space && i < ENTRIES ensures Pde(m', t, i) == Pde(m, t, i) {
      assert Holds(m, Dir(t), m.space[t]);
    }
    forall t, i: nat, j: nat | t in m.space && i < USER_ENTRIES && j < ENTRIES
      ensures Pte(m', t, i, j) == Pte(m, t, i, j)
    {
      if Pde(m, t, i).present {
        assert GoodPde(m, Pde(m, t, i));
        assert Holds(m, Table(t, i), Pde(m, t, i).frame);
      }
    }
  }

  lemma SameWalkTyped(m: Memory, m': Memory)
    requires WalkSame(m, m') && Typed(m)
    ensures Typed(m')
  {
  }

  lemma SameWalkHolders(m: Memory, m': Memory)
    requires WalkSame(m, m')
    ensures forall s: Slot, f :: !s.Kern? ==> (Holds(m', s, f) <==> Holds(m, s, f))
  {
  }

  /** Guarded survives when entries only disappear and the one changed count is not a mapped page's. */
  lemma GuardedKept(m: Memory, m': Memory, f0: nat)
    requires Typed(m) && Guarded(m) && WalkWithin(m, m')
    requires |m'.count| == |m.count| && forall f :: 0 <= f < |m.count| && f != f0 ==> m'.count[f] == m.count[f]
    requires forall s :: Holds(m, s, f0) ==> !s.Leaf?
    ensures Guarded(m')
  {
    forall t, i: nat, j: nat |
      t in m'.space && i < USER_ENTRIES && j < ENTRIES && Pte(m', t, i, j).present && Pte(m', t, i, j).rw
      ensures Pte(m', t, i, j).frame < PAGING_PAGES && m'.count[Pte(m', t, i, j).frame] == 1
    {
      assert Holds(m, Leaf(t, i, j), Pte(m, t, i, j).frame);
    }
  }

  // ---------- pages the kernel holds ----------

  /** get_free_page returns a managed page that nothing refers to. */
  lemma GetFree(m: Memory)
    requires Inv(m) && GetFreePage(m).Got?
    ensures var r := GetFreePage(m);
            && Managed(m, r.page) && r.page !in m.kernel && m.count[r.page] == 0
            && (forall s :: !Holds(m, s, r.page))
            && WalkSame(m, r.mem) && SameReserved(m, r.mem) && Inv(r.mem)
            && r.mem.kernel == m.kernel + {r.page} && r.mem.phys[r.page] == ZeroPage()
  {
    var f := GetFreePage(m).page;
    var m' := GetFreePage(m).mem;
    assert Managed(m, f);
    forall s ensures !Holds(m, s, f) {
      Unheld(m, f, s);
    }
    assert !Holds(m, Kern(f), f);
    Payload(m, m', f);
    SameWalkTyped(m, m');
    SwapperKept(m, m');
    SameWalkHolders(m, m');
    GetFreeCounted(m, m', f);
    GuardedKept(m, m', f);
  }

  lemma GetFreeCounted(m: Memory, m': Memory, f: nat)
    requires Shape(m) && Exclusive(m) && Counted(m) && SameFrame(m, m') && Managed(m, f) && m.count[f] == 0
    requires m'.count == m.count[f := 1] && m'.kernel == m.kernel + {f}
    requires forall s :: !Holds(m, s, f)
    requires Gained(m, m', Kern(f), f)
    ensures Shape(m') && Exclusive(m') && Counted(m')
  {
    GainRef(m, m', Kern(f), f);
  }

  /** The kernel gives back a page it holds; free_page does not panic. */
  lemma GiveBack(m: Memory, f: nat)
    requires Inv(m) && f in m.kernel
    ensures MayFree(m, f) && !Reserved(m, f)
    ensures WalkSame(m, FreeHeld(m, f)) && SameReserved(m, FreeHeld(m, f)) && Inv(FreeHeld(m, f))
  {
    var m' := FreeHeld(m, f);
    assert Holds(m, Kern(f), f);
    ExclusiveCount(m, f, Kern(f));
    assert WalkSame(m, m');
    SameWalkTyped(m, m');
    SwapperKept(m, m');
    SameWalkHolders(m, m');
    OnlyHolder(m, f, Kern(f));
    LoseRef(m, m', Kern(f), f);
    GuardedKept(m, m', f);
  }

  lemma OnlyHolder(m: Memory, f: nat, s: Slot)
    requires Exclusive(m) && Managed(m, f) && Holds(m, s, f) && !s.Leaf?
    ensures forall s' :: Holds(m, s', f) ==> s' == s
  {
  }

  /** Filling a page that the kernel holds. */
  lemma FillHeld(m: Memory, f: nat, p: Page)
    requires Inv(m) && f in m.kernel
    ensures WalkSame(m, SetPage(m, f, p)) && SameReserved(m, SetPage(m, f, p)) && Inv(SetPage(m, f, p))
  {
    var m' := SetPage(m, f, p);
    assert Holds(m, Kern(f), f);
    OnlyHolder(m, f, Kern(f));
    Payload(m, m', f);
    SameWalkTyped(m, m');
    SwapperKept(m, m');
    SameWalkHolders(m, m');
    KeepRefs(m, m');
  }

  // ---------- page tables ----------

  /** A zeroed page the kernel holds becomes the table of an empty directory entry: no entry changes. */
  lemma NewTable(m: Memory, t: nat, i: nat, g: nat)
    requires Inv(m) && t in m.space && i < USER_ENTRIES && !Pde(m, t, i).present
    requires g in m.kernel && m.phys[g] == ZeroPage()
    ensures var m' := AttachTable(m, m.space[t], i, g);
            && Inv(m') && SameReserved(m, m') && SameFrame(m, m')
            && Pde(m', t, i) == TableEntry(g)
            && TableAdded(m, m', t, i)
  {
    var m' := AttachTable(m, m.space[t], i, g);
    assert Holds(m, Kern(g), g) && Holds(m, Dir(t), m.space[t]);
    OnlyHolder(m, g, Kern(g));
    NewTableWalk(m, t, i, g);
    NewTableTyped(m, m', t, i, g);
    SwapperKept(m, m');
    NewTableHolders(m, m', t, i, g);
    MoveRef(m, m', Kern(g), Table(t, i), g);
    NewTableGuarded(m, m', t, i);
  }

  /** Only directory entry i of task t differs, and every table entry is as before. */
  ghost predicate TableAdded(m: Memory, m': Memory, t: nat, i: nat) {
    && (forall t', i': nat :: t' in m.space && i' < ENTRIES && !(t' == t && i' == i) ==>
          Pde(m', t', i') == Pde(m, t', i'))
    && (forall t', i': nat, j: nat :: t' in m.space && i' < USER_ENTRIES && j < ENTRIES ==>
          Pte(m', t', i', j) == Pte(m, t', i', j))
  }

  lemma NewTableWalk(m: Memory, t: nat, i: nat, g: nat)
    requires Shape(m) && Typed(m) && Exclusive(m) && t in m.space && i < USER_ENTRIES && !Pde(m, t, i).present
    requires g in m.kernel && m.phys[g] == ZeroPage()
    ensures var m' := AttachTable(m, m.space[t], i, g);
            Pde(m', t, i) == TableEntry(g) && TableAdded(m, m', t, i)
  {
    var d := m.space[t];
    var m' := AttachTable(m, d, i, g);
    assert Holds(m, Kern(g), g) && Holds(m, Dir(t), d);
    forall t', i': nat | t' in m.space && i' < ENTRIES && !(t' == t && i' == i)
      ensures Pde(m', t', i') == Pde(m, t', i')
    {
      assert Holds(m, Dir(t'), m.space[t']);
    }
    forall t', i': nat, j: nat | t' in m.space && i' < USER_ENTRIES && j < ENTRIES
      ensures Pte(m', t', i', j) == Pte(m, t', i', j)
    {
      assert Holds(m, Dir(t'), m.space[t']);
      if Pde(m, t', i').present {
        assert GoodPde(m, Pde(m, t', i'));
        assert Holds(m, Table(t', i'), Pde(m, t', i').frame);
      }
    }
  }

  lemma NewTableTyped(m: Memory, m': Memory, t: nat, i: nat, g: nat)
    requires Typed(m) && SameFrame(m, m') && TableAdded(m, m', t, i)
    requires t in m.space && i < USER_ENTRIES && Managed(m, g) && Pde(m', t, i) == TableEntry(g)
    ensures Typed(m')
  {
  }

  lemma NewTableHolders(m: Memory, m': Memory, t: nat, i: nat, g: nat)
    requires SameFrame(m, m') && TableAdded(m, m', t, i) && m'.kernel == m.kernel - {g} && g in m.kernel
    requires t in m.space && i < USER_ENTRIES && !Pde(m, t, i).present && Pde(m', t, i) == TableEntry(g)
    ensures Moved(m, m', Kern(g), Table(t, i), g)
  {
  }

  lemma NewTableGuarded(m: Memory, m': Memory, t: nat, i: nat)
    requires Guarded(m) && SameFrame(m, m') && TableAdded(m, m', t, i) && m'.count == m.count
    ensures Guarded(m')
  {
  }

  /** Directory entry i of task t goes, with the table it named. */
  ghost predicate TableGone(m: Memory, m': Memory, t: nat, i: nat) {
    && (forall t', i': nat :: t' in m.space && i' < ENTRIES ==>
          Pde(m', t', i') == if t' == t && i' == i then ZERO else Pde(m, t', i'))
    && (forall t', i': nat, j: nat :: t' in m.space && i' < USER_ENTRIES && j < ENTRIES ==>
          Pte(m', t', i', j) == if t' == t && i' == i then ZERO else Pte(m, t', i', j))
  }

  /** Dropping a table that maps no managed page any more. */
  lemma DropTable(m: Memory, t: nat, i: nat)
    requires Inv(m) && t in m.space && i < USER_ENTRIES && Pde(m, t, i).present
    requires forall j: nat :: j < ENTRIES && Pte(m, t, i, j).present ==> !Managed(m, Pte(m, t, i, j).frame)
    ensures var f := Pde(m, t, i).frame;
            var m1 := Store(m, m.space[t], i, ZERO);
            var m' := FreePage(m1, f);
            && f < m.high && !Reserved(m, f) && MayFree(m1, f)
            && Inv(m') && SameReserved(m, m') && m'.kernel == m.kernel && TableGone(m, m', t, i)
  {
    var f := Pde(m, t, i).frame;
    assert GoodPde(m, Pde(m, t, i));
    assert Holds(m, Table(t, i), f) && Holds(m, Dir(t), m.space[t]);
    ExclusiveCount(m, f, Table(t, i));
    OnlyHolder(m, f, Table(t, i));
    var m' := FreePage(Store(m, m.space[t], i, ZERO), f);
    DropTableWalk(m, t, i);
    DropTableTyped(m, m', t, i);
    SwapperKept(m, m');
    DropTableHolders(m, m', t, i);
    LoseRef(m, m', Table(t, i), f);
    GuardedKept(m, m', f);
  }

  lemma DropTableWalk(m: Memory, t: nat, i: nat)
    requires Shape(m) && Typed(m) && Exclusive(m) && t in m.space && i < USER_ENTRIES && Pde(m, t, i).present
    ensures TableGone(m, FreePage(Store(m, m.space[t], i, ZERO), Pde(m, t, i).frame), t, i)
  {
    var d := m.space[t];
    var m' := FreePage(Store(m, d, i, ZERO), Pde(m, t, i).frame);
    assert Holds(m, Dir(t), d);
    forall t', i': nat | t' in m.space && i' < ENTRIES
      ensures Pde(m', t', i') == if t' == t && i' == i then ZERO else Pde(m, t', i')
    {
      assert Holds(m, Dir(t'), m.space[t']);
    }
    forall t', i': nat, j: nat | t' in m.space && i' < USER_ENTRIES && j < ENTRIES
      ensures Pte(m', t', i', j) == if t' == t && i' == i then ZERO else Pte(m, t', i', j)
    {
      assert Holds(m, Dir(t'), m.space[t']);
      if Pde(m, t', i').present {
        assert GoodPde(m, Pde(m, t', i'));
        assert Holds(m, Table(t', i'), Pde(m, t', i').frame);
      }
    }
  }

  lemma DropTableTyped(m: Memory, m': Memory, t: nat, i: nat)
    requires Typed(m) && SameFrame(m, m') && TableGone(m, m', t, i)
    ensures Typed(m')
  {
  }

  lemma DropTableHolders(m: Memory, m': Memory, t: nat, i: nat)
    requires SameFrame(m, m') && TableGone(m, m', t, i) && m'.kernel == m.kernel
    requires t in m.space && i < USER_ENTRIES && Pde(m, t, i).present
    requires forall j: nat :: j < ENTRIES && Pte(m, t, i, j).present ==> !Managed(m, Pte(m, t, i, j).frame)
    ensures Lost(m, m', Table(t, i), Pde(m, t, i).frame)
  {
  }

  /** An entry of the kernel's part of a directory is shared by copying it. */
  lemma KernelEntry(m: Memory, t: nat, i: nat, w: Word)
    requires Inv(m) && t in m.space && USER_ENTRIES <= i < ENTRIES && KernelPde(m, w)
    ensures var m' := Store(m, m.space[t], i, w);
            && Inv(m') && SameReserved(m, m') && UserWalkSame(m, m')
  {
    var m' := Store(m, m.space[t], i, w);
    assert Holds(m, Dir(t), m.space[t]);
    KernelEntryWalk(m, t, i, w);
    SwapperKept(m, m');
    KeepRefs(m, m');
  }

  ghost predicate UserWalkSame(m: Memory, m': Memory) {
    && SameFrame(m, m')
    && (forall t, i: nat :: t in m.space && i < USER_ENTRIES ==> Pde(m', t, i) == Pde(m, t, i))
    && (forall t, i: nat, j: nat :: t in m.space && i < USER_ENTRIES && j < ENTRIES ==>
          Pte(m', t, i, j) == Pte(m, t, i, j))
  }

  lemma KernelEntryWalk(m: Memory, t: nat, i: nat, w: Word)
    requires Shape(m) && Typed(m) && Exclusive(m) && t in m.space && USER_ENTRIES <= i < ENTRIES && KernelPde(m, w)
    ensures UserWalkSame(m, Store(m, m.space[t], i, w)) && Typed(Store(m, m.space[t], i, w))
  {
    var m' := Store(m, m.space[t], i, w);
    assert Holds(m, Dir(t), m.space[t]);
    forall t', i': nat | t' in m.space && i' < ENTRIES
      ensures Pde(m', t', i') == if t' == t && i' == i then w else Pde(m, t', i')
    {
      assert Holds(m, Dir(t'), m.space[t']);
    }
    forall t', i': nat, j: nat | t' in m.space && i' < USER_ENTRIES && j < ENTRIES
      ensures Pte(m', t', i', j) == Pte(m, t', i', j)
    {
      assert Pde(m', t', i') == Pde(m, t', i');
      if Pde(m, t', i').present {
        assert GoodPde(m, Pde(m, t', i'));
        assert Holds(m, Table(t', i'), Pde(m, t', i').frame);
      }
    }
  }

  // ---------- directories ----------

  /** The other tasks' entries are untouched and task t has none. */
  ghost predicate EmptySpace(m: Memory, t: nat) {
    forall i: nat :: i < USER_ENTRIES ==> Pde(m, t, i) == ZERO
  }

  /** A zeroed page the kernel holds becomes the directory of a task that had none. */
  lemma NewDir(m: Memory, t: nat, d: nat)
    requires Inv(m) && t !in m.space && 1 <= t < NR_TASKS && d in m.kernel && m.phys[d] == ZeroPage()
    ensures var m' := AttachDir(m, t, d);
            && Inv(m') && m'.phys == m.phys && SameBounds(m, m')
            && m'.space == m.space[t := d] && EmptySpace(m', t)
            && (forall i: nat :: i < ENTRIES ==> Pde(m', t, i) == ZERO)
  {
    var m' := AttachDir(m, t, d);
    assert Holds(m, Kern(d), d);
    OnlyHolder(m, d, Kern(d));
    NewDirTyped(m, t, d);
    MoveRef(m, m', Kern(d), Dir(t), d);
  }

  lemma NewDirTyped(m: Memory, t: nat, d: nat)
    requires Typed(m) && Guarded(m) && t !in m.space && d in m.kernel && m.phys[d] == ZeroPage()
    ensures var m' := AttachDir(m, t, d);
            && Typed(m') && Guarded(m') && Moved(m, m', Kern(d), Dir(t), d)
  {
    var m' := AttachDir(m, t, d);
    forall t', i: nat | t' in m'.space && i < ENTRIES
      ensures Pde(m', t', i) == if t' == t then ZERO else Pde(m, t', i)
    {
    }
    forall t', i: nat, j: nat | t' in m'.space && i < ENTRIES && j < ENTRIES
      ensures Pte(m', t', i, j) == if t' == t then ZERO else Pte(m, t', i, j)
    {
    }
  }

  /** A directory without user tables goes. */
  lemma DropDir(m: Memory, t: nat)
    requires Inv(m) && t in m.space && EmptySpace(m, t)
    ensures var d := m.space[t];
            var m1 := LeaveSpace(m, t);
            var m' := FreePage(m1, d);
            && MayFree(m1, d) && Inv(m') && m'.phys == m.phys && SameBounds(m, m')
            && m'.kernel == m.kernel && m'.space == m.space - {t}
  {
    var d := m.space[t];
    var m' := FreePage(LeaveSpace(m, t), d);
    assert Holds(m, Dir(t), d);
    ExclusiveCount(m, d, Dir(t));
    OnlyHolder(m, d, Dir(t));
    DropDirWalk(m, m', t);
    LoseRef(m, m', Dir(t), d);
    GuardedKept(m, m', d);
  }

  lemma DropDirWalk(m: Memory, m': Memory, t: nat)
    requires Typed(m) && t in m.space && EmptySpace(m, t)
    requires m'.phys == m.phys && SameBounds(m, m') && m'.kernel == m.kernel && m'.space == m.space - {t}
    ensures Typed(m') && WalkWithin(m, m') && Lost(m, m', Dir(t), m.space[t])
  {
    forall t', i: nat | t' in m'.space && i < ENTRIES ensures Pde(m', t', i) == Pde(m, t', i) {
    }
    forall t', i: nat, j: nat | t' in m'.space && i < ENTRIES && j < ENTRIES
      ensures Pte(m', t', i, j) == Pte(m, t', i, j)
    {
    }
  }

  // ---------- user stores ----------

  /** A store into a mapped page cannot reach a directory or a table. */
  lemma StoreMapped(m: Memory, t: nat, i: nat, j: nat, k: nat, v: Word)
    requires Inv(m) && IsLeaf(m, t, i, j) && k < 1024
    requires Pte(m, t, i, j).present && Managed(m, Pte(m, t, i, j).frame)
    ensures var m' := Store(m, Pte(m, t, i, j).frame, k, v);
            WalkSame(m, m') && SameReserved(m, m') && Inv(m')
  {
    var f := Pte(m, t, i, j).frame;
    var m' := Store(m, f, k, v);
    assert Holds(m, Leaf(t, i, j), f);
    LeafOnly(m, f, t, i, j);
    Payload(m, m', f);
    SameWalkTyped(m, m');
    SwapperKept(m, m');
    SameWalkHolders(m, m');
    KeepRefs(m, m');
  }

  lemma LeafOnly(m: Memory, f: nat, t: nat, i: nat, j: nat)
    requires Exclusive(m) && Managed(m, f) && Holds(m, Leaf(t, i, j), f)
    ensures forall s :: Holds(m, s, f) ==> s.Leaf?
  {
  }
}
