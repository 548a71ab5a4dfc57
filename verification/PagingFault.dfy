/** Page faults: write faults never change what anybody reads, a missing page is filled,
    shared or loaded without touching any other address.
 */
module PagingFault {
  import opened Common
  import opened PageEntry
  import opened PagingModel
  import opened PagingInvariant
  import opened PagingLeaf
  import opened PagingFrames
  import opened PagingRelease
  import opened PagingFork

  /** Task t reads the same everywhere, except perhaps in page (i, j). */
  ghost predicate SameElsewhere(m: Memory, m': Memory, t: nat, i: nat, j: nat) {
    forall i': nat, j': nat, k: nat :: i' < USER_ENTRIES && j' < ENTRIES && k < 1024 && !(i' == i && j' == j) ==>
      View(m', t, i', j', k) == View(m, t, i', j', k)
  }

  ghost predicate SameViews(m: Memory, m': Memory, t: nat) {
    forall i: nat, j: nat, k: nat :: i < USER_ENTRIES && j < ENTRIES && k < 1024 ==>
      View(m', t, i, j, k) == View(m, t, i, j, k)
  }

  /** The entries of task t other than (i, j), and the pages they map, are untouched. */
  ghost predicate KeptElsewhere(m: Memory, m': Memory, t: nat, i: nat, j: nat) {
    forall i': nat, j': nat :: i' < USER_ENTRIES && j' < ENTRIES && !(i' == i && j' == j) ==>
      && SameTarget(Pte(m, t, i', j'), Pte(m', t, i', j'))
      && (Pte(m, t, i', j').present && Pte(m, t, i', j').frame < PAGING_PAGES ==>
            m'.phys[Pte(m, t, i', j').frame] == m.phys[Pte(m, t, i', j').frame])
  }

  /** Everyone but t is undisturbed, and t only at page (i, j). */
  ghost predicate LocalTo(m: Memory, m': Memory, t: nat, i: nat, j: nat) {
    OthersUndisturbed(m, m', t) && KeptElsewhere(m, m', t, i, j)
  }

  lemma KeptElsewhereView(m: Memory, m': Memory, t: nat, i: nat, j: nat)
    requires KeptElsewhere(m, m', t, i, j)
    ensures SameElsewhere(m, m', t, i, j)
  {
    forall i': nat, j': nat, k: nat | i' < USER_ENTRIES && j' < ENTRIES && k < 1024 && !(i' == i && j' == j)
      ensures View(m', t, i', j', k) == View(m, t, i', j', k)
    {
      assert SameTarget(Pte(m, t, i', j'), Pte(m', t, i', j'));
    }
  }

  lemma LocalTrans(m: Memory, m1: Memory, m2: Memory, t: nat, i: nat, j: nat)
    requires LocalTo(m, m1, t, i, j) && LocalTo(m1, m2, t, i, j)
    ensures LocalTo(m, m2, t, i, j)
  {
    OthersTrans(m, m1, m2, t);
    forall i': nat, j': nat | i' < USER_ENTRIES && j' < ENTRIES && !(i' == i && j' == j)
      ensures SameTarget(Pte(m, t, i', j'), Pte(m2, t, i', j'))
      ensures Pte(m, t, i', j').present && Pte(m, t, i', j').frame < PAGING_PAGES ==>
                m2.phys[Pte(m, t, i', j').frame] == m.phys[Pte(m, t, i', j').frame]
    {
      assert SameTarget(Pte(m, t, i', j'), Pte(m1, t, i', j'));
    }
  }

  lemma LocalFromKept(m: Memory, m': Memory, t: nat, i: nat, j: nat)
    requires OthersUndisturbed(m, m', t) && PagesKept(m, m', t)
    ensures LocalTo(m, m', t, i, j)
  {
    forall i': nat, j': nat | i' < USER_ENTRIES && j' < ENTRIES && !(i' == i && j' == j)
      ensures SameTarget(Pte(m, t, i', j'), Pte(m', t, i', j'))
    {
    }
  }

  lemma LocalFromAll(m: Memory, m': Memory, t: nat, i: nat, j: nat)
    requires AllUndisturbed(m, m') && t in m.space
    ensures LocalTo(m, m', t, i, j) && PagesKept(m, m', t)
  {
    assert Undisturbed(m, m', t);
    LocalFromKept(m, m', t, i, j);
  }

  /** Replacing one entry, and nothing but its table, is local to that entry. */
  lemma LeafLocal(m: Memory, m': Memory, t: nat, i: nat, j: nat, w: Word)
    requires Typed(m) && Exclusive(m) && IsLeaf(m, t, i, j)
    requires LeafChanged(m, m', t, i, j, w) && OnlyFrame(m, m', Pde(m, t, i).frame)
    ensures LocalTo(m, m', t, i, j)
  {
    var f := Pde(m, t, i).frame;
    assert GoodPde(m, Pde(m, t, i));
    assert Holds(m, Table(t, i), f);
    Unmapped(m, f, Table(t, i));
    forall t' | t' in m.space && t' != t ensures Undisturbed(m, m', t') {
    }
  }

  // ---------- put_page ----------

  ghost predicate TableReady(m: Memory, r: Outcome, t: nat, i: nat) {
    && Inv(r.mem) && SameReserved(m, r.mem) && r.mem.kernel == m.kernel
    && OthersUndisturbed(m, r.mem, t) && PagesKept(m, r.mem, t)
    && i < USER_ENTRIES && (forall j: nat :: j < ENTRIES ==> Pte(r.mem, t, i, j) == Pte(m, t, i, j))
    && (r.ok ==> Pde(r.mem, t, i).present && Pde(r.mem, t, i).frame < PAGING_PAGES)
  }

  lemma EnsureTableReady(m: Memory, t: nat, i: nat)
    requires Inv(m) && t in m.space && i < USER_ENTRIES
    ensures TableReady(m, EnsureTable(m, t, i), t, i)
  {
    assert GoodPde(m, Pde(m, t, i));
    if Pde(m, t, i).present || GetFreePage(m).NoPage? {
      forall t' | t' in m.space && t' != t ensures Undisturbed(m, m, t') {
      }
    } else {
      GrowTable(m, t, i);
    }
  }

  /** Page (i, j) of task t now shows `page`, which the kernel held. */
  ghost predicate Showing(m: Memory, m': Memory, t: nat, i: nat, j: nat, page: Frame) {
    && SameReserved(m, m') && m'.kernel == m.kernel - {page} && LocalTo(m, m', t, i, j)
    && j < ENTRIES && Pte(m', t, i, j).present && Pte(m', t, i, j).frame == page && m'.phys[page] == m.phys[page]
  }

  ghost predicate Mapped(m: Memory, m': Memory, t: nat, i: nat, j: nat, page: Frame) {
    Inv(m') && Showing(m, m', t, i, j, page)
  }

  lemma MapPage(m: Memory, t: nat, i: nat, j: nat, w: Word)
    requires Inv(m) && IsLeaf(m, t, i, j) && w.present && w.frame in m.kernel
    ensures Pde(m, t, i).frame < PAGING_PAGES
    ensures var m' := Unhold(Store(m, Pde(m, t, i).frame, j, w), w.frame);
            Showing(m, m', t, i, j, w.frame) && (Inv(m') <==> Vacant(m, t, i, j))
  {
    HeldApart(m, w.frame, t, i);
    var m' := Unhold(Store(m, Pde(m, t, i).frame, j, w), w.frame);
    MapPageWalk(m, m', t, i, j, w);
    if Vacant(m, t, i, j) {
      AttachLeaf(m, m', t, i, j, w);
    } else {
      OverwrittenLeaks(m, m', t, i, j, w);
    }
  }

  /** A counted page whose entry is overwritten keeps a count that nobody can give back. */
  lemma OverwrittenLeaks(m: Memory, m': Memory, t: nat, i: nat, j: nat, w: Word)
    requires Shape(m) && Exclusive(m) && Counted(m) && IsLeaf(m, t, i, j) && !Vacant(m, t, i, j)
    requires w.present && w.frame in m.kernel
    requires LeafChanged(m, m', t, i, j, w) && m'.kernel == m.kernel - {w.frame} && m'.count == m.count
    ensures m'.count[Pte(m, t, i, j).frame] == |Refs(m', Pte(m, t, i, j).frame)| + 1 && !Counted(m')
  {
    var g := Pte(m, t, i, j).frame;
    assert Holds(m, Leaf(t, i, j), g) && Holds(m, Kern(w.frame), w.frame);
    assert Managed(m, g) && g != w.frame;
    LeafHolders(m, m', t, i, j, w);
    HoldersBut(m, m', Leaf(t, i, j), w.frame, g);
    CountLoss(m, m', Leaf(t, i, j), g);
    assert Managed(m', g);
  }

  lemma HoldersBut(m: Memory, m': Memory, s0: Slot, page: Frame, g: nat)
    requires m'.kernel == m.kernel - {page} && g != page && s0.Leaf?
    requires forall s, f :: s != s0 && !s.Kern? ==> (Holds(m', s, f) <==> Holds(m, s, f))
    ensures forall s :: s != s0 ==> (Holds(m', s, g) <==> Holds(m, s, g))
  {
  }

  lemma MapPageWalk(m: Memory, m': Memory, t: nat, i: nat, j: nat, w: Word)
    requires Shape(m) && Typed(m) && Exclusive(m) && IsLeaf(m, t, i, j) && w.frame in m.kernel
    requires Pde(m, t, i).frame < PAGING_PAGES && m' == Unhold(Store(m, Pde(m, t, i).frame, j, w), w.frame)
    ensures LeafChanged(m, m', t, i, j, w) && LocalTo(m, m', t, i, j) && SameReserved(m, m')
  {
    assert GoodPde(m, Pde(m, t, i));
    StoreLeaf(m, t, i, j, w);
    LeafLocal(m, m', t, i, j, w);
  }

  /** A page the kernel holds is nobody's directory or table. */
  lemma HeldApart(m: Memory, page: Frame, t: nat, i: nat)
    requires Shape(m) && Typed(m) && Exclusive(m) && page in m.kernel && t in m.space && i < USER_ENTRIES
    ensures m.space[t] != page
    ensures Pde(m, t, i).present ==> Pde(m, t, i).frame < PAGING_PAGES && Pde(m, t, i).frame != page
  {
    assert Holds(m, Kern(page), page) && Holds(m, Dir(t), m.space[t]);
    if Pde(m, t, i).present {
      assert GoodPde(m, Pde(m, t, i));
      assert Holds(m, Table(t, i), Pde(m, t, i).frame);
    }
  }

  /** put_page: the page is mapped where the task asked, and nothing else of anybody changes; the
      counts stay exact if and only if the entry did not map a counted page before. */
  lemma PutPageMaps(m: Memory, t: nat, page: nat, i: nat, j: nat)
    requires Inv(m) && t in m.space && i < USER_ENTRIES && j < ENTRIES && page < PAGING_PAGES && page in m.kernel
    ensures var r := PutPage(m, t, page, i, j);
            if r.ok then Showing(m, r.mem, t, i, j, page) && (Inv(r.mem) <==> Vacant(m, t, i, j))
            else Inv(r.mem) && SameReserved(m, r.mem) && r.mem.kernel == m.kernel && LocalTo(m, r.mem, t, i, j)
                 && Pte(r.mem, t, i, j) == Pte(m, t, i, j)
  {
    hide Inv;
    EnsureTableReady(m, t, i);
    var r := EnsureTable(m, t, i);
    LocalFromKept(m, r.mem, t, i, j);
    if r.ok {
      MapPage(r.mem, t, i, j, MappedEntry(page));
      var m' := Unhold(Store(r.mem, Pde(r.mem, t, i).frame, j, MappedEntry(page)), page);
      LocalTrans(m, r.mem, m', t, i, j);
      EnsureKeepsHeld(m, t, i, page);
    }
  }

  lemma FreshPage(m: Memory)
    requires Shape(m) && Counted(m) && GetFreePage(m).Got?
    ensures GetFreePage(m).page !in m.kernel
  {
    var f := GetFreePage(m).page;
    Unheld(m, f, Kern(f));
  }

  /** Allocating a table leaves the contents of held pages alone. */
  lemma EnsureKeepsHeld(m: Memory, t: nat, i: nat, page: nat)
    requires Inv(m) && t in m.space && i < USER_ENTRIES && page in m.kernel
    ensures EnsureTable(m, t, i).mem.phys[page] == m.phys[page]
  {
    HeldApart(m, page, t, i);
    if !Pde(m, t, i).present && GetFreePage(m).Got? {
      FreshPage(m);
    }
  }

  // ---------- un_wp_page ----------

  /** After a write fault the entry is writable and everybody reads what they read before. */
  ghost predicate Unprotected(m: Memory, m': Memory, t: nat, i: nat, j: nat) {
    && Inv(m') && SameReserved(m, m') && m'.kernel == m.kernel
    && LocalTo(m, m', t, i, j) && i < USER_ENTRIES && j < ENTRIES
    && Pde(m', t, i) == Pde(m, t, i) && Pte(m', t, i, j).present && Pte(m', t, i, j).rw
    && (forall k: nat :: k < 1024 ==> View(m', t, i, j, k) == View(m, t, i, j, k))
  }

  lemma WriteFault(m: Memory, t: nat, i: nat, j: nat)
    requires Inv(m) && IsLeaf(m, t, i, j) && Pte(m, t, i, j).present
    ensures var r := WpFault(m, t, i, j);
            if r.ok then Unprotected(m, r.mem, t, i, j) else r.mem == m
  {
    assert GoodPde(m, Pde(m, t, i)) && GoodPte(m, Pte(m, t, i, j));
    var f, w := Pde(m, t, i).frame, Pte(m, t, i, j);
    assert w == m.phys[f][j];
    if m.count[w.frame] == 1 {
      Unshare(m, t, i, j);
    } else if GetFreePage(m).Got? {
      CopyFault(m, t, i, j);
    }
  }

  /** The only reference simply becomes writable. */
  lemma Unshare(m: Memory, t: nat, i: nat, j: nat)
    requires Inv(m) && IsLeaf(m, t, i, j) && Pte(m, t, i, j).present && Pte(m, t, i, j).frame < m.high
    requires m.count[Pte(m, t, i, j).frame] == 1
    ensures Pde(m, t, i).frame < PAGING_PAGES
    ensures Unprotected(m, Store(m, Pde(m, t, i).frame, j, Pte(m, t, i, j).(rw := true)), t, i, j)
  {
    assert GoodPde(m, Pde(m, t, i));
    var w := Pte(m, t, i, j).(rw := true);
    var m' := Store(m, Pde(m, t, i).frame, j, w);
    StoreLeaf(m, t, i, j, w);
    FlagLeaf(m, m', t, i, j, w);
    LeafLocal(m, m', t, i, j, w);
    TableNotMapped(m, t, i, j);
  }

  lemma TableNotMapped(m: Memory, t: nat, i: nat, j: nat)
    requires Typed(m) && Exclusive(m) && IsLeaf(m, t, i, j) && Pte(m, t, i, j).present
    ensures Pte(m, t, i, j).frame != Pde(m, t, i).frame
  {
    assert GoodPde(m, Pde(m, t, i));
    assert Holds(m, Table(t, i), Pde(m, t, i).frame) && Holds(m, Leaf(t, i, j), Pte(m, t, i, j).frame);
  }

  /** Dropping the reference and mapping a held copy in its place. */
  lemma CopyFault(m: Memory, t: nat, i: nat, j: nat)
    requires Inv(m) && IsLeaf(m, t, i, j) && Pte(m, t, i, j).present && Pte(m, t, i, j).frame < m.high
    requires m.count[Pte(m, t, i, j).frame] != 1 && GetFreePage(m).Got?
    ensures WpFault(m, t, i, j).ok && Unprotected(m, WpFault(m, t, i, j).mem, t, i, j)
  {
    hide Inv;
    GetFree(m);
    FreshUndisturbed(m);
    var g, m1 := GetFreePage(m).page, GetFreePage(m).mem;
    LocalFromAll(m, m1, t, i, j);
    var old' := Pte(m, t, i, j).frame;
    assert Holds(m, Leaf(t, i, j), old');
    assert Pte(m1, t, i, j) == Pte(m, t, i, j) && old' != g;
    PrivateCopy(m1, t, i, j, g);
    assert WpFault(m, t, i, j) == Outcome(true, CopyOnWrite(m1, Pde(m1, t, i).frame, j, g));
    LocalTrans(m, m1, WpFault(m, t, i, j).mem, t, i, j);
  }

  lemma PrivateCopy(m: Memory, t: nat, i: nat, j: nat, g: Frame)
    requires Inv(m) && IsLeaf(m, t, i, j) && Pte(m, t, i, j).present && Pte(m, t, i, j).frame < m.high
    requires g in m.kernel && g != Pte(m, t, i, j).frame
    ensures Pde(m, t, i).frame < PAGING_PAGES
    ensures var m' := CopyOnWrite(m, Pde(m, t, i).frame, j, g);
            && Inv(m') && SameReserved(m, m') && m'.kernel == m.kernel - {g} && LocalTo(m, m', t, i, j)
            && Pde(m', t, i) == Pde(m, t, i) && Pte(m', t, i, j) == PrivateEntry(g)
            && m'.phys[g] == m.phys[Pte(m, t, i, j).frame]
  {
    hide Shape, Typed, Exclusive, Counted, Guarded, Swapper;
    var g0 := Pte(m, t, i, j).frame;
    HeldApart(m, g, t, i);
    TableNotMapped(m, t, i, j);
    MappedCount(m, t, i, j);
    CopyOnWriteOrder(m, Pde(m, t, i).frame, j, g, g0);
    FillHeld(m, g, m.phys[g0]);
    var m1 := SetPage(m, g, m.phys[g0]);
    FilledLocal(m, m1, g, t, i, j);
    SwapEntry(m1, t, i, j, g);
    LocalTrans(m, m1, CopyOnWrite(m, Pde(m, t, i).frame, j, g), t, i, j);
  }

  lemma MappedCount(m: Memory, t: nat, i: nat, j: nat)
    requires Shape(m) && Counted(m) && IsLeaf(m, t, i, j) && Pte(m, t, i, j).present && Pte(m, t, i, j).frame < m.high
    ensures 0 < m.count[Pte(m, t, i, j).frame] < 256
  {
    var f := Pte(m, t, i, j).frame;
    if Managed(m, f) {
      assert Holds(m, Leaf(t, i, j), f);
      Held(m, f, Leaf(t, i, j));
    }
  }

  /** The entry lets go of its page and takes the held one. */
  lemma SwapEntry(m: Memory, t: nat, i: nat, j: nat, g: Frame)
    requires Inv(m) && IsLeaf(m, t, i, j) && Pte(m, t, i, j).present && Pte(m, t, i, j).frame < m.high && g in m.kernel
    ensures Pde(m, t, i).frame < PAGING_PAGES
    ensures var f := Pde(m, t, i).frame;
            var m1 := FreePage(Store(m, f, j, ZERO), Pte(m, t, i, j).frame);
            var m' := Unhold(Store(m1, f, j, PrivateEntry(g)), g);
            && Inv(m') && SameReserved(m, m') && m'.kernel == m.kernel - {g} && LocalTo(m, m', t, i, j)
            && Pde(m', t, i) == Pde(m, t, i) && Pte(m', t, i, j) == PrivateEntry(g) && m'.phys[g] == m.phys[g]
  {
    ReleaseEntry(m, t, i, j);
    HeldApart(m, g, t, i);
    var f := Pde(m, t, i).frame;
    var m1 := FreePage(Store(m, f, j, ZERO), Pte(m, t, i, j).frame);
    assert Pde(m1, t, i) == Pde(m, t, i);
    MapPage(m1, t, i, j, PrivateEntry(g));
    var m' := Unhold(Store(m1, f, j, PrivateEntry(g)), g);
    LocalTrans(m, m1, m', t, i, j);
    DirKept(m1, m', t, i, j, PrivateEntry(g));
  }

  lemma DirKept(m: Memory, m': Memory, t: nat, i: nat, j: nat, w: Word)
    requires Shape(m) && Typed(m) && Exclusive(m) && IsLeaf(m, t, i, j) && w.frame < PAGING_PAGES
    requires Pde(m, t, i).frame < PAGING_PAGES && m' == Unhold(Store(m, Pde(m, t, i).frame, j, w), w.frame)
    ensures Pde(m', t, i) == Pde(m, t, i) && Pte(m', t, i, j) == w
  {
    StoreLeaf(m, t, i, j, w);
    assert LeafChanged(m, m', t, i, j, w);
  }

  lemma FilledLocal(m: Memory, m': Memory, g: Frame, t: nat, i: nat, j: nat)
    requires Exclusive(m) && Shape(m) && g in m.kernel && t in m.space && WalkSame(m, m') && OnlyFrame(m, m', g)
    ensures LocalTo(m, m', t, i, j)
  {
    assert Holds(m, Kern(g), g);
    Unmapped(m, g, Kern(g));
    PayloadUndisturbed(m, m', g);
    LocalFromAll(m, m', t, i, j);
  }

  /** Emptying a present entry: its page loses a reference unless it is reserved. */
  lemma ReleaseEntry(m: Memory, t: nat, i: nat, j: nat)
    requires Inv(m) && IsLeaf(m, t, i, j) && Pte(m, t, i, j).present && Pte(m, t, i, j).frame < m.high
    ensures Pde(m, t, i).frame < PAGING_PAGES
    ensures var m' := FreePage(Store(m, Pde(m, t, i).frame, j, ZERO), Pte(m, t, i, j).frame);
            && Inv(m') && SameReserved(m, m') && m'.kernel == m.kernel && LocalTo(m, m', t, i, j)
            && LeafChanged(m, m', t, i, j, ZERO)
  {
    assert GoodPde(m, Pde(m, t, i)) && GoodPte(m, Pte(m, t, i, j));
    var m' := FreePage(Store(m, Pde(m, t, i).frame, j, ZERO), Pte(m, t, i, j).frame);
    MappedCount(m, t, i, j);
    ReleaseWalk(m, m', t, i, j);
    if Managed(m, Pte(m, t, i, j).frame) {
      DropLeaf(m, m', t, i, j);
    } else {
      ReservedLeaf(m, m', t, i, j, ZERO);
    }
  }

  lemma ReleaseWalk(m: Memory, m': Memory, t: nat, i: nat, j: nat)
    requires Shape(m) && Typed(m) && Exclusive(m) && IsLeaf(m, t, i, j) && Pde(m, t, i).frame < PAGING_PAGES
    requires m' == FreePage(Store(m, Pde(m, t, i).frame, j, ZERO), Pte(m, t, i, j).frame)
    ensures LeafChanged(m, m', t, i, j, ZERO) && LocalTo(m, m', t, i, j) && SameReserved(m, m')
  {
    assert GoodPde(m, Pde(m, t, i));
    StoreLeaf(m, t, i, j, ZERO);
    LeafLocal(m, m', t, i, j, ZERO);
  }

  lemma CopyOnWriteOrder(m: Memory, f: Frame, j: nat, g: Frame, g0: Frame)
    requires j < ENTRIES && g0 == m.phys[f][j].frame && f != g && f != g0 && g != g0
    requires m.count[g0] > 0 && m.count[g0] < 256
    ensures CopyOnWrite(m, f, j, g)
            == Unhold(Store(FreePage(Store(SetPage(m, g, m.phys[g0]), f, j, ZERO), g0), f, j, PrivateEntry(g)), g)
  {
    var l := CopyOnWrite(m, f, j, g);
    var r := Unhold(Store(FreePage(Store(SetPage(m, g, m.phys[g0]), f, j, ZERO), g0), f, j, PrivateEntry(g)), g);
    assert l.phys[f] == r.phys[f] && l.phys[g] == r.phys[g];
    assert l.phys == r.phys;
  }

  // ---------- user writes ----------

  /** Exactly word k of page (i, j) of task t changed, to v. */
  ghost predicate WroteWord(m: Memory, m': Memory, t: nat, i: nat, j: nat, k: nat, v: Word) {
    && OthersUndisturbed(m, m', t) && ReservedKept(m, m') && j < ENTRIES
    && (forall i': nat, j': nat, k': nat :: i' < USER_ENTRIES && j' < ENTRIES && k' < 1024 ==>
          View(m', t, i', j', k') == if i' == i && j' == j && k' == k then Some(v) else View(m, t, i', j', k'))
  }

  /** A store through a present entry, whatever its write bit says, sets its flags and changes one word. */
  lemma StoreAny(m: Memory, t: nat, i: nat, j: nat, k: nat, v: Word)
    requires Inv(m) && IsLeaf(m, t, i, j) && k < 1024
    requires Pte(m, t, i, j).present && Managed(m, Pte(m, t, i, j).frame)
    ensures HasTable(m, t, i) && Stored(m, UserStore(m, t, i, j, k, v), t, i, j, k, v)
  {
    assert GoodPde(m, Pde(m, t, i)) && GoodPte(m, Pte(m, t, i, j));
    var f, w := Pde(m, t, i).frame, Pte(m, t, i, j);
    var w' := w.(accessed := true, dirty := true);
    var m1 := Store(m, f, j, w');
    StoreLeaf(m, t, i, j, w');
    FlagLeaf(m, m1, t, i, j, w');
    StoreMapped(m1, t, i, j, k, v);
    TableNotMapped(m, t, i, j);
  }

  ghost predicate Stored(m: Memory, m': Memory, t: nat, i: nat, j: nat, k: nat, v: Word) {
    && Inv(m') && m'.kernel == m.kernel && SameReserved(m, m') && IsLeaf(m, t, i, j) && k < 1024
    && Pde(m, t, i).frame < PAGING_PAGES && Pte(m, t, i, j).frame < PAGING_PAGES
    && Pte(m, t, i, j).frame != Pde(m, t, i).frame
    && LeafChanged(m, m', t, i, j, Pte(m, t, i, j).(accessed := true, dirty := true))
    && OnlyFrames(m, m', Pde(m, t, i).frame, Pte(m, t, i, j).frame)
    && m'.phys[Pte(m, t, i, j).frame] == m.phys[Pte(m, t, i, j).frame][k := v]
  }

  lemma StoreWord(m: Memory, t: nat, i: nat, j: nat, k: nat, v: Word)
    requires Inv(m) && IsLeaf(m, t, i, j) && k < 1024 && Pte(m, t, i, j).present
    requires Managed(m, Pte(m, t, i, j).frame) && m.count[Pte(m, t, i, j).frame] == 1
    ensures HasTable(m, t, i) && Pte(m, t, i, j).frame < PAGING_PAGES
    ensures var m' := UserStore(m, t, i, j, k, v);
            Inv(m') && m'.kernel == m.kernel && SameReserved(m, m') && WroteWord(m, m', t, i, j, k, v)
  {
    StoreAny(m, t, i, j, k, v);
    PrivatePage(m, t, i, j);
    StoreWordViews(m, UserStore(m, t, i, j, k, v), t, i, j, k, v);
  }

  /** The page behind a writable entry has one user. */
  lemma WritableCount(m: Memory, t: nat, i: nat, j: nat)
    requires Typed(m) && Guarded(m) && IsLeaf(m, t, i, j) && Pte(m, t, i, j).present && Pte(m, t, i, j).rw
    ensures Managed(m, Pte(m, t, i, j).frame) && m.count[Pte(m, t, i, j).frame] == 1
  {
    assert GoodPte(m, Pte(m, t, i, j));
  }

  /** No other entry maps the page that (t, i, j) maps. */
  ghost predicate Alone(m: Memory, t: nat, i: nat, j: nat) {
    j < ENTRIES && forall t', i': nat, j': nat ::
      && t' in m.space && i' < USER_ENTRIES && j' < ENTRIES
      && !(t' == t && i' == i && j' == j) && Pte(m, t', i', j').present
      ==> Pte(m, t', i', j').frame != Pte(m, t, i, j).frame
  }

  /** Nobody else, at no other address, maps a page of count 1. */
  lemma PrivatePage(m: Memory, t: nat, i: nat, j: nat)
    requires Shape(m) && Counted(m) && IsLeaf(m, t, i, j) && Pte(m, t, i, j).present
    requires Managed(m, Pte(m, t, i, j).frame) && m.count[Pte(m, t, i, j).frame] == 1
    ensures Alone(m, t, i, j)
  {
    var f := Pte(m, t, i, j).frame;
    assert Holds(m, Leaf(t, i, j), f);
    forall t', i': nat, j': nat | t' in m.space && i' < USER_ENTRIES && j' < ENTRIES && Pte(m, t', i', j').present
      && !(t' == t && i' == i && j' == j)
      ensures Pte(m, t', i', j').frame != f
    {
      if Pte(m, t', i', j').frame == f {
        assert Holds(m, Leaf(t', i', j'), f);
        SoleHolder(m, f, Leaf(t, i, j), Leaf(t', i', j'));
      }
    }
  }

  lemma StoreWordViews(m: Memory, m': Memory, t: nat, i: nat, j: nat, k: nat, v: Word)
    requires Typed(m) && Exclusive(m) && Stored(m, m', t, i, j, k, v) && Pte(m, t, i, j).present
    requires Managed(m, Pte(m, t, i, j).frame) && Alone(m, t, i, j)
    ensures WroteWord(m, m', t, i, j, k, v)
  {
    assert GoodPde(m, Pde(m, t, i));
    assert Holds(m, Table(t, i), Pde(m, t, i).frame);
    Unmapped(m, Pde(m, t, i).frame, Table(t, i));
    forall t' | t' in m.space && t' != t ensures Undisturbed(m, m', t') {
    }
    forall i': nat, j': nat, k': nat | i' < USER_ENTRIES && j' < ENTRIES && k' < 1024
      ensures View(m', t, i', j', k') == if i' == i && j' == j && k' == k then Some(v) else View(m, t, i', j', k')
    {
    }
  }

  /** Copy-on-write isolation: a user write to a present page, through the fault if it must,
      changes exactly the word it names in the writer's view and nothing in anybody else's. */
  lemma WriteIsolation(m: Memory, t: nat, i: nat, j: nat, k: nat, v: Word)
    requires Inv(m) && IsLeaf(m, t, i, j) && k < 1024 && Pte(m, t, i, j).present
    ensures var r := UserWrite(m, t, i, j, k, v);
            if r.ok then Inv(r.mem) && r.mem.kernel == m.kernel && r.mem.space == m.space
                         && WroteWord(m, r.mem, t, i, j, k, v)
            else r.mem == m
  {
    hide Shape, Typed, Exclusive, Counted, Guarded, Swapper;
    if Pte(m, t, i, j).rw {
      WritableCount(m, t, i, j);
      StoreWord(m, t, i, j, k, v);
    } else {
      WriteFault(m, t, i, j);
      var r := WpFault(m, t, i, j);
      if r.ok {
        StoreAfterFault(m, r.mem, t, i, j, k, v);
      }
    }
  }

  lemma StoreAfterFault(m: Memory, m1: Memory, t: nat, i: nat, j: nat, k: nat, v: Word)
    requires Unprotected(m, m1, t, i, j) && IsLeaf(m, t, i, j) && k < 1024
    ensures HasTable(m1, t, i) && Pte(m1, t, i, j).frame < PAGING_PAGES
    ensures var m2 := UserStore(m1, t, i, j, k, v);
            Inv(m2) && m2.kernel == m.kernel && m2.space == m.space && WroteWord(m, m2, t, i, j, k, v)
  {
    WritableCount(m1, t, i, j);
    StoreWord(m1, t, i, j, k, v);
    WroteAfterFault(m, m1, UserStore(m1, t, i, j, k, v), t, i, j, k, v);
  }

  lemma WroteAfterFault(m: Memory, m1: Memory, m2: Memory, t: nat, i: nat, j: nat, k: nat, v: Word)
    requires SameReserved(m, m1) && LocalTo(m, m1, t, i, j) && i < USER_ENTRIES && j < ENTRIES
    requires forall k: nat :: k < 1024 ==> View(m1, t, i, j, k) == View(m, t, i, j, k)
    requires WroteWord(m1, m2, t, i, j, k, v)
    ensures WroteWord(m, m2, t, i, j, k, v)
  {
    OthersTrans(m, m1, m2, t);
    KeptElsewhereView(m, m1, t, i, j);
  }

  // ---------- kernel stores ----------

  lemma SecondHolder(m: Memory, f: nat, s: Slot) returns (s': Slot)
    requires Shape(m) && Counted(m) && Managed(m, f) && Holds(m, s, f) && m.count[f] != 1
    ensures s' != s && Holds(m, s', f)
  {
    HoldsInUniverse(m, s, f);
    var others := Refs(m, f) - {s};
    assert Refs(m, f) == others + {s};
    assert others != {};
    s' :| s' in others;
  }

  /** put_fs_byte ignores the write bit: the processor does not check it in the kernel.  So a store of
      the kernel into user memory keeps all counts and reserved memory, but it changes what some other
      task reads if and only if the page has more than one user. */
  lemma KernelStoreExact(m: Memory, t: nat, i: nat, j: nat, k: nat, v: Word)
    requires Inv(m) && IsLeaf(m, t, i, j) && k < 1024 && View(m, t, i, j, k) != Some(v)
    requires Pte(m, t, i, j).present && Managed(m, Pte(m, t, i, j).frame)
    ensures HasTable(m, t, i)
    ensures var m' := UserStore(m, t, i, j, k, v);
            && Inv(m') && m'.kernel == m.kernel && SameReserved(m, m')
            && (m.count[Pte(m, t, i, j).frame] == 1 <==> OthersUndisturbed(m, m', t))
            && (m.count[Pte(m, t, i, j).frame] == 1 ==> WroteWord(m, m', t, i, j, k, v))
  {
    StoreAny(m, t, i, j, k, v);
    if m.count[Pte(m, t, i, j).frame] == 1 {
      StoreWord(m, t, i, j, k, v);
    } else {
      var t' := SharedStore(m, UserStore(m, t, i, j, k, v), t, i, j, k, v);
    }
  }

  /** Some other task has the page at the same address, and sees the store. */
  lemma SharedStore(m: Memory, m': Memory, t: nat, i: nat, j: nat, k: nat, v: Word) returns (t': nat)
    requires Shape(m) && Exclusive(m) && Counted(m) && Stored(m, m', t, i, j, k, v) && View(m, t, i, j, k) != Some(v)
    requires Pte(m, t, i, j).present && Managed(m, Pte(m, t, i, j).frame) && m.count[Pte(m, t, i, j).frame] != 1
    ensures t' in m.space && t' != t && View(m, t', i, j, k) == View(m, t, i, j, k)
    ensures View(m', t', i, j, k) == Some(v) && !OthersUndisturbed(m, m', t)
  {
    var f := Pte(m, t, i, j).frame;
    assert Holds(m, Leaf(t, i, j), f);
    var s := SecondHolder(m, f, Leaf(t, i, j));
    assert SameAddress(s, Leaf(t, i, j));
    t' := s.t;
    assert Pte(m, t', i, j).present && Pte(m, t', i, j).frame == f;
    assert m'.phys[f][k] == v != m.phys[f][k];
    assert !PagesKept(m, m', t');
  }

  // ---------- missing pages ----------

  /** A page that was missing at (i, j) is there, or at least nothing else happened. */
  ghost predicate Filled(m: Memory, r: Outcome, t: nat, i: nat, j: nat) {
    match r
    case Outcome(ok, mem) =>
      && Inv(mem) && SameReserved(m, mem) && mem.kernel == m.kernel && LocalTo(m, mem, t, i, j)
      && j < ENTRIES && (Pte(mem, t, i, j).present <==> ok)
  }

  ghost predicate Placed(m: Memory, r: Outcome, t: nat, i: nat, j: nat, image: Page) {
    && Filled(m, r, t, i, j)
    && (r.ok ==> forall k: nat :: k < 1024 ==> View(r.mem, t, i, j, k) == Some(image[k]))
  }

  predicate Missing(m: Memory, t: nat, i: nat, j: nat) {
    t in m.space && i < USER_ENTRIES && j < ENTRIES && !Pte(m, t, i, j).present
  }

  /** A page the kernel has just taken is mapped with its contents, or given back. */
  lemma PlaceTaken(m: Memory, m1: Memory, t: nat, page: Frame, i: nat, j: nat)
    requires Inv(m1) && SameReserved(m, m1) && LocalTo(m, m1, t, i, j) && Missing(m1, t, i, j)
    requires page !in m.kernel && m1.kernel == m.kernel + {page}
    ensures Placed(m, PlacePage(m1, t, page, i, j), t, i, j, m1.phys[page])
  {
    hide Inv;
    PutPageMaps(m1, t, page, i, j);
    var r := PutPage(m1, t, page, i, j);
    LocalTrans(m, m1, r.mem, t, i, j);
    if !r.ok {
      assert page in r.mem.kernel;
      GiveBack(r.mem, page);
      var m2 := FreeHeld(r.mem, page);
      HeldUndisturbed(r.mem, page);
      LocalFromAll(r.mem, m2, t, i, j);
      LocalTrans(m, r.mem, m2, t, i, j);
    }
  }

  /** get_empty_page gives a page of zeros. */
  lemma EmptyPageFills(m: Memory, t: nat, i: nat, j: nat)
    requires Inv(m) && Missing(m, t, i, j)
    ensures Placed(m, EmptyPage(m, t, i, j), t, i, j, ZeroPage())
  {
    if GetFreePage(m).NoPage? {
      SelfLocal(m, t, i, j);
    } else {
      TakePage(m, t, i, j);
      PlaceTaken(m, GetFreePage(m).mem, t, GetFreePage(m).page, i, j);
    }
  }

  lemma TakePage(m: Memory, t: nat, i: nat, j: nat)
    requires Inv(m) && Missing(m, t, i, j) && GetFreePage(m).Got?
    ensures var r := GetFreePage(m);
            && Inv(r.mem) && SameReserved(m, r.mem) && LocalTo(m, r.mem, t, i, j) && Missing(r.mem, t, i, j)
            && r.page !in m.kernel && r.mem.kernel == m.kernel + {r.page} && r.mem.phys[r.page] == ZeroPage()
  {
    GetFree(m);
    FreshUndisturbed(m);
    LocalFromAll(m, GetFreePage(m).mem, t, i, j);
  }

  lemma SelfLocal(m: Memory, t: nat, i: nat, j: nat)
    requires t in m.space
    ensures LocalTo(m, m, t, i, j)
  {
    forall t' | t' in m.space && t' != t ensures Undisturbed(m, m, t') {
    }
  }

  // ---------- sharing and loading ----------

  /** At page (i, j) task t of m' reads what task p of m reads. */
  ghost predicate ReadsAs(m: Memory, p: nat, m': Memory, t: nat, i: nat, j: nat)
    requires j < ENTRIES
  {
    forall k: nat :: k < 1024 ==> View(m', t, i, j, k) == View(m, p, i, j, k)
  }

  ghost predicate ReadsAsSome(m: Memory, donors: seq<nat>, m': Memory, t: nat, i: nat, j: nat)
    requires j < ENTRIES
  {
    exists p :: p in donors && p in m.space && ReadsAs(m, p, m', t, i, j)
  }

  /** The tasks share_page turns to: others that run an executable, and so in a space of their own. */
  predicate AreDonors(m: Memory, donors: seq<nat>, t: nat) {
    forall p <- donors :: p in m.space && p != t
  }

  /** try_to_share: the sharer reads what the donor reads, and nobody else notices. */
  lemma ShareOne(m: Memory, t: nat, p: nat, i: nat, j: nat)
    requires Inv(m) && Missing(m, t, i, j) && p in m.space && p != t
    ensures var r := TryToShare(m, t, p, i, j);
            && Filled(m, r, t, i, j)
            && (r.ok ==> ReadsAs(m, p, r.mem, t, i, j))
  {
    hide Exclusive, Counted, Guarded, Swapper;
    var w := Pte(m, p, i, j);
    if w.present && !w.dirty && w.frame < m.high && !Reserved(m, w.frame) {
      EnsureTableReady(m, t, i);
      var r := EnsureTable(m, t, i);
      LocalFromKept(m, r.mem, t, i, j);
      if r.ok {
        DonorKept(m, r.mem, t, p, i, j);
        DonorShares(m, r.mem, t, p, i, j);
      }
    } else {
      SelfLocal(m, t, i, j);
    }
  }

  /** The sharing proper, once the sharer has a table. */
  lemma DonorShares(m: Memory, m1: Memory, t: nat, p: nat, i: nat, j: nat)
    requires Inv(m1) && SameReserved(m, m1) && m1.kernel == m.kernel && LocalTo(m, m1, t, i, j) && p in m.space
    requires p != t
    requires IsLeaf(m1, t, i, j) && !Pte(m1, t, i, j).present && Undisturbed(m, m1, p)
    requires IsLeaf(m1, p, i, j) && Pte(m1, p, i, j) == Pte(m, p, i, j)
    requires Pte(m, p, i, j).present && Managed(m1, Pte(m, p, i, j).frame)
    ensures Pde(m1, p, i).frame < PAGING_PAGES && Pde(m1, t, i).frame < PAGING_PAGES
    ensures var m2 := ShareEntry(m1, Pde(m1, p, i).frame, Pde(m1, t, i).frame, j, Pte(m1, p, i, j).(rw := false));
            && Filled(m, Outcome(true, m2), t, i, j)
            && ReadsAs(m, p, m2, t, i, j)
  {
    hide Inv;
    ShareReady(m1, t, p, i, j);
    var m2 := ShareEntry(m1, Pde(m1, p, i).frame, Pde(m1, t, i).frame, j, Pte(m1, p, i, j).(rw := false));
    LocalTrans(m, m1, m2, t, i, j);
  }

  lemma DonorKept(m: Memory, m': Memory, t: nat, p: nat, i: nat, j: nat)
    requires OthersUndisturbed(m, m', t) && p in m.space && p != t && i < USER_ENTRIES && j < ENTRIES
    requires EnsureTable(m, t, i).mem == m' && Inv(m) && t in m.space
    ensures Undisturbed(m, m', p) && Pte(m', p, i, j) == Pte(m, p, i, j) && Pde(m', p, i) == Pde(m, p, i)
  {
    if !Pde(m, t, i).present && GetFreePage(m).Got? {
      GrowTable(m, t, i);
    }
  }

  lemma ShareReady(m: Memory, t: nat, p: nat, i: nat, j: nat)
    requires Inv(m) && IsLeaf(m, t, i, j) && !Pte(m, t, i, j).present && IsLeaf(m, p, i, j) && p != t
    requires Pte(m, p, i, j).present && Managed(m, Pte(m, p, i, j).frame)
    ensures Pde(m, p, i).frame < PAGING_PAGES && Pde(m, t, i).frame < PAGING_PAGES
    ensures var m' := ShareEntry(m, Pde(m, p, i).frame, Pde(m, t, i).frame, j, Pte(m, p, i, j).(rw := false));
            && Inv(m') && SameReserved(m, m') && m'.kernel == m.kernel && LocalTo(m, m', t, i, j)
            && Pte(m', t, i, j).present && Pte(m', t, i, j).frame == Pte(m, p, i, j).frame
            && m'.phys[Pte(m, p, i, j).frame] == m.phys[Pte(m, p, i, j).frame]
  {
    ShareSteps(m, t, p, i, j);
    var w := Pte(m, p, i, j).(rw := false);
    var m1 := Store(m, Pde(m, p, i).frame, j, w);
    var m' := ShareEntry(m, Pde(m, p, i).frame, Pde(m, t, i).frame, j, w);
    TwoLeavesLocal(m, m1, m', p, t, i, j, w);
  }

  /** The donor's entry is protected, then the sharer's is set. */
  lemma ShareSteps(m: Memory, t: nat, p: nat, i: nat, j: nat)
    requires Inv(m) && IsLeaf(m, t, i, j) && !Pte(m, t, i, j).present && IsLeaf(m, p, i, j) && p != t
    requires Pte(m, p, i, j).present && Managed(m, Pte(m, p, i, j).frame)
    ensures Pde(m, p, i).frame < PAGING_PAGES && Pde(m, t, i).frame < PAGING_PAGES
    ensures var w := Pte(m, p, i, j).(rw := false);
            var m1 := Store(m, Pde(m, p, i).frame, j, w);
            var m' := ShareEntry(m, Pde(m, p, i).frame, Pde(m, t, i).frame, j, w);
            && Inv(m') && SameReserved(m, m') && m'.kernel == m.kernel
            && LeafChanged(m, m1, p, i, j, w) && LeafChanged(m1, m', t, i, j, w)
            && OnlyFrames(m, m', Pde(m, p, i).frame, Pde(m, t, i).frame)
  {
    hide Shape, Typed, Exclusive, Counted, Guarded, Swapper;
    TablesDiffer(m, p, t, i);
    WriteProtect(m, p, i, j);
    ShareInto(Store(m, Pde(m, p, i).frame, j, Pte(m, p, i, j).(rw := false)), p, t, i, j);
  }

  lemma TwoLeavesLocal(m: Memory, m1: Memory, m2: Memory, p: nat, t: nat, i: nat, j: nat, w: Word)
    requires Typed(m) && Exclusive(m) && IsLeaf(m, p, i, j) && IsLeaf(m, t, i, j) && p != t
    requires LeafChanged(m, m1, p, i, j, w) && LeafChanged(m1, m2, t, i, j, w) && SameTarget(Pte(m, p, i, j), w)
    requires OnlyFrames(m, m2, Pde(m, p, i).frame, Pde(m, t, i).frame)
    requires w.present && Managed(m, w.frame)
    ensures LocalTo(m, m2, t, i, j) && m2.phys[w.frame] == m.phys[w.frame]
  {
    assert GoodPde(m, Pde(m, p, i)) && GoodPde(m, Pde(m, t, i));
    assert Holds(m, Table(p, i), Pde(m, p, i).frame) && Holds(m, Table(t, i), Pde(m, t, i).frame);
    assert Holds(m, Leaf(p, i, j), w.frame);
    Unmapped(m, Pde(m, p, i).frame, Table(p, i));
    Unmapped(m, Pde(m, t, i).frame, Table(t, i));
    forall t' | t' in m.space && t' != t ensures Undisturbed(m, m2, t') {
    }
  }

  lemma {:induction false} ShareAny(m: Memory, t: nat, donors: seq<nat>, i: nat, j: nat)
    requires Inv(m) && Missing(m, t, i, j) && AreDonors(m, donors, t)
    ensures var r := SharePage(m, t, donors, i, j);
            && Filled(m, r, t, i, j)
            && (r.ok ==> ReadsAsSome(m, donors, r.mem, t, i, j))
  {
    if donors == [] {
      SelfLocal(m, t, i, j);
    } else {
      ShareOne(m, t, donors[0], i, j);
      var r := TryToShare(m, t, donors[0], i, j);
      if r.ok {
        assert donors[0] in donors;
      } else {
        StillMissing(m, r.mem, donors, t, i, j);
        ShareAny(r.mem, t, donors[1..], i, j);
        var r' := SharePage(r.mem, t, donors[1..], i, j);
        ShareRest(m, r.mem, r', t, donors[1..], i, j);
        MoreDonors(m, donors, r'.mem, t, i, j);
      }
    }
  }

  lemma StillMissing(m: Memory, m1: Memory, donors: seq<nat>, t: nat, i: nat, j: nat)
    requires Filled(m, Outcome(false, m1), t, i, j) && Missing(m, t, i, j) && AreDonors(m, donors, t) && donors != []
    ensures Missing(m1, t, i, j) && AreDonors(m1, donors[1..], t)
  {
  }

  lemma MoreDonors(m: Memory, donors: seq<nat>, m': Memory, t: nat, i: nat, j: nat)
    requires donors != [] && j < ENTRIES
    ensures ReadsAsSome(m, donors[1..], m', t, i, j) ==> ReadsAsSome(m, donors, m', t, i, j)
  {
  }

  lemma ShareRest(m: Memory, m1: Memory, r: Outcome, t: nat, donors: seq<nat>, i: nat, j: nat)
    requires Filled(m, Outcome(false, m1), t, i, j) && Filled(m1, r, t, i, j) && t !in donors && i < USER_ENTRIES
    requires r.ok ==> ReadsAsSome(m1, donors, r.mem, t, i, j)
    ensures Filled(m, r, t, i, j) && (r.ok ==> ReadsAsSome(m, donors, r.mem, t, i, j))
  {
    LocalTrans(m, m1, r.mem, t, i, j);
    if r.ok {
      var p :| p in donors && p in m1.space && ReadsAs(m1, p, r.mem, t, i, j);
      assert Undisturbed(m, m1, p);
      forall k: nat | k < 1024 ensures View(m1, p, i, j, k) == View(m, p, i, j, k) {
        KeptView(m, m1, p, i, j, k);
      }
      assert ReadsAs(m, p, r.mem, t, i, j);
    }
  }

  /** do_no_page in the executable: shared with a donor, or the page read from disk. */
  lemma LoadFills(m: Memory, t: nat, donors: seq<nat>, image: Page, i: nat, j: nat)
    requires Inv(m) && Missing(m, t, i, j) && AreDonors(m, donors, t)
    ensures var r := LoadPage(m, t, donors, image, i, j);
            && Filled(m, r, t, i, j)
            && (r.ok ==>
                  || (forall k: nat :: k < 1024 ==> View(r.mem, t, i, j, k) == Some(image[k]))
                  || ReadsAsSome(m, donors, r.mem, t, i, j))
  {
    ShareAny(m, t, donors, i, j);
    var r := SharePage(m, t, donors, i, j);
    if !r.ok {
      ReadInFills(r.mem, t, image, i, j);
      FilledTrans(m, r.mem, ReadIn(r.mem, t, image, i, j), t, i, j);
    }
  }

  lemma ReadInFills(m: Memory, t: nat, image: Page, i: nat, j: nat)
    requires Inv(m) && Missing(m, t, i, j)
    ensures Placed(m, ReadIn(m, t, image, i, j), t, i, j, image)
  {
    if GetFreePage(m).NoPage? {
      SelfLocal(m, t, i, j);
    } else {
      TakePage(m, t, i, j);
      LoadImage(m, GetFreePage(m).mem, t, GetFreePage(m).page, image, i, j);
    }
  }

  lemma LoadImage(m: Memory, m1: Memory, t: nat, page: Frame, image: Page, i: nat, j: nat)
    requires Inv(m1) && SameReserved(m, m1) && LocalTo(m, m1, t, i, j) && Missing(m1, t, i, j)
    requires page !in m.kernel && m1.kernel == m.kernel + {page}
    ensures Placed(m, PlacePage(SetPage(m1, page, image), t, page, i, j), t, i, j, image)
  {
    assert page in m1.kernel;
    var m2 := SetPage(m1, page, image);
    FillHeld(m1, page, image);
    FilledLocal(m1, m2, page, t, i, j);
    LocalTrans(m, m1, m2, t, i, j);
    PlaceTaken(m, m2, t, page, i, j);
  }

  lemma FilledTrans(m: Memory, m1: Memory, r: Outcome, t: nat, i: nat, j: nat)
    requires Filled(m, Outcome(false, m1), t, i, j) && Filled(m1, r, t, i, j)
    ensures Filled(m, r, t, i, j)
  {
    LocalTrans(m, m1, r.mem, t, i, j);
  }
}
