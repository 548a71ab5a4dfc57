/** copy_page_tables: the child comes to mirror its parent, nobody is disturbed, and running
    out of memory half way leaves every count as it was.
 */
module PagingFork {
  import opened Common
  import opened PageEntry
  import opened PagingModel
  import opened PagingInvariant
  import opened PagingLeaf
  import opened PagingFrames
  import opened PagingRelease

  /** Entry (c, i, j) now maps what (p, i, j) maps; every other entry maps what it did. */
  ghost predicate EntryCopied(m: Memory, m': Memory, p: nat, c: nat, i: nat, j: nat) {
    && SameFrame(m, m') && m'.kernel == m.kernel
    && (forall t, i': nat :: t in m.space && i' < ENTRIES ==> Pde(m', t, i') == Pde(m, t, i'))
    && (forall t, i': nat, j': nat :: t in m.space && i' < USER_ENTRIES && j' < ENTRIES ==>
          SameTarget(if t == c && i' == i && j' == j then Pte(m, p, i, j) else Pte(m, t, i', j'), Pte(m', t, i', j')))
  }

  ghost predicate OnlyFrames(m: Memory, m': Memory, g: nat, h: nat) {
    forall f :: 0 <= f < PAGING_PAGES && f != g && f != h ==> m'.phys[f] == m.phys[f]
  }

  predicate CanCopy(m: Memory, p: nat, c: nat, i: nat, j: nat) {
    && IsLeaf(m, c, i, j) && !Pte(m, c, i, j).present && p != c
    && (if p in m.space then IsLeaf(m, p, i, j) else p == 0 && i == 0 && j < FIRST_FORK_PAGES)
  }

  lemma CopyEntryStep(m: Memory, p: nat, c: nat, i: nat, j: nat)
    requires Inv(m) && CanCopy(m, p, c, i, j)
    ensures Pde(m, p, i).frame < PAGING_PAGES && Pde(m, c, i).frame < PAGING_PAGES
    ensures var m' := CopyEntry(m, Pde(m, p, i).frame, Pde(m, c, i).frame, j);
            && Inv(m') && SameReserved(m, m') && EntryCopied(m, m', p, c, i, j)
            && OnlyFrames(m, m', Pde(m, p, i).frame, Pde(m, c, i).frame)
  {
    hide Exclusive, Counted;
    assert GoodPde(m, Pde(m, c, i));
    if p in m.space {
      assert GoodPde(m, Pde(m, p, i));
      assert GoodPte(m, Pte(m, p, i, j));
    }
    var w := Pte(m, p, i, j);
    if !w.present {
      assert CopyEntry(m, Pde(m, p, i).frame, Pde(m, c, i).frame, j) == m;
    } else if !Managed(m, w.frame) {
      StoreLeaf(m, c, i, j, w.(rw := false));
      ReservedLeaf(m, Store(m, Pde(m, c, i).frame, j, w.(rw := false)), c, i, j, w.(rw := false));
    } else {
      CopyManaged(m, p, c, i, j);
    }
  }

  lemma CopyManaged(m: Memory, p: nat, c: nat, i: nat, j: nat)
    requires Inv(m) && CanCopy(m, p, c, i, j) && p in m.space
    requires Pte(m, p, i, j).present && Managed(m, Pte(m, p, i, j).frame)
    ensures Pde(m, p, i).frame < PAGING_PAGES && Pde(m, c, i).frame < PAGING_PAGES
    ensures var m' := CopyEntry(m, Pde(m, p, i).frame, Pde(m, c, i).frame, j);
            && Inv(m') && SameReserved(m, m') && EntryCopied(m, m', p, c, i, j)
            && OnlyFrames(m, m', Pde(m, p, i).frame, Pde(m, c, i).frame)
  {
    hide Typed, Exclusive, Counted, Guarded, Swapper, LeafChanged, EntryCopied;
    TablesDiffer(m, p, c, i);
    CopyManagedOrder(m, p, c, i, j);
    WriteProtect(m, p, i, j);
    var m1 := Store(m, Pde(m, p, i).frame, j, Pte(m, p, i, j).(rw := false));
    ShareInto(m1, p, c, i, j);
    TwoLeaves(m, m1, CopyEntry(m, Pde(m, p, i).frame, Pde(m, c, i).frame, j), p, c, i, j,
              Pte(m, p, i, j).(rw := false));
  }

  /** The order of the two stores does not matter, because the tables differ. */
  lemma CopyManagedOrder(m: Memory, p: nat, c: nat, i: nat, j: nat)
    requires IsLeaf(m, p, i, j) && IsLeaf(m, c, i, j) && Pde(m, p, i).frame != Pde(m, c, i).frame
    requires Pde(m, p, i).frame < PAGING_PAGES && Pde(m, c, i).frame < PAGING_PAGES
    requires Pte(m, p, i, j).present && !Reserved(m, Pte(m, p, i, j).frame)
    ensures var w := Pte(m, p, i, j).(rw := false);
            var m1 := Store(m, Pde(m, p, i).frame, j, w);
            CopyEntry(m, Pde(m, p, i).frame, Pde(m, c, i).frame, j)
            == SetCount(Store(m1, Pde(m, c, i).frame, j, w), w.frame, (m1.count[w.frame] + 1) % 256)
  {
    StoresCommute(m, Pde(m, p, i).frame, Pde(m, c, i).frame, j, Pte(m, p, i, j).(rw := false));
  }

  lemma TablesDiffer(m: Memory, p: nat, c: nat, i: nat)
    requires Typed(m) && Exclusive(m) && p != c && p in m.space && c in m.space && i < USER_ENTRIES
    requires Pde(m, p, i).present && Pde(m, c, i).present
    ensures Pde(m, p, i).frame != Pde(m, c, i).frame
    ensures Managed(m, Pde(m, p, i).frame) && Managed(m, Pde(m, c, i).frame)
  {
    assert GoodPde(m, Pde(m, p, i)) && GoodPde(m, Pde(m, c, i));
    assert Holds(m, Table(p, i), Pde(m, p, i).frame) && Holds(m, Table(c, i), Pde(m, c, i).frame);
  }

  lemma StoresCommute(m: Memory, f: nat, g: nat, j: nat, w: Word)
    requires f < PAGING_PAGES && g < PAGING_PAGES && f != g && j < ENTRIES
    ensures Store(Store(m, g, j, w), f, j, w) == Store(Store(m, f, j, w), g, j, w)
  {
    assert Store(Store(m, g, j, w), f, j, w).phys == Store(Store(m, f, j, w), g, j, w).phys;
  }

  lemma TwoLeaves(m: Memory, m1: Memory, m2: Memory, p: nat, c: nat, i: nat, j: nat, w: Word)
    requires LeafChanged(m, m1, p, i, j, w) && LeafChanged(m1, m2, c, i, j, w) && m2.kernel == m.kernel
    requires p in m.space && i < USER_ENTRIES && j < ENTRIES && SameTarget(Pte(m, p, i, j), w)
    ensures EntryCopied(m, m2, p, c, i, j)
  {
  }

  lemma WriteProtect(m: Memory, p: nat, i: nat, j: nat)
    requires Inv(m) && IsLeaf(m, p, i, j) && Pte(m, p, i, j).present
    ensures Pde(m, p, i).frame < PAGING_PAGES && Managed(m, Pde(m, p, i).frame)
    ensures var w := Pte(m, p, i, j).(rw := false);
            var m' := Store(m, Pde(m, p, i).frame, j, w);
            Inv(m') && SameReserved(m, m') && LeafChanged(m, m', p, i, j, w)
  {
    assert GoodPde(m, Pde(m, p, i));
    var w := Pte(m, p, i, j).(rw := false);
    StoreLeaf(m, p, i, j, w);
    FlagLeaf(m, Store(m, Pde(m, p, i).frame, j, w), p, i, j, w);
  }

  /** Task c maps, read-only, the managed page task p maps read-only at the same address. */
  lemma ShareInto(m: Memory, p: nat, c: nat, i: nat, j: nat)
    requires Inv(m) && p != c && IsLeaf(m, p, i, j) && IsLeaf(m, c, i, j) && !Pte(m, c, i, j).present
    requires Pte(m, p, i, j).present && !Pte(m, p, i, j).rw && Managed(m, Pte(m, p, i, j).frame)
    ensures Pde(m, c, i).frame < PAGING_PAGES && Managed(m, Pde(m, c, i).frame)
    ensures var w := Pte(m, p, i, j);
            var m' := SetCount(Store(m, Pde(m, c, i).frame, j, w), w.frame, (m.count[w.frame] + 1) % 256);
            Inv(m') && SameReserved(m, m') && LeafChanged(m, m', c, i, j, w)
  {
    var w := Pte(m, p, i, j);
    var n := (m.count[w.frame] + 1) % 256;
    ShareStored(m, c, i, j, w, n);
    ShareHere(m, SetCount(Store(m, Pde(m, c, i).frame, j, w), w.frame, n), p, c, i, j, w, n);
  }

  lemma ShareHere(m: Memory, m': Memory, p: nat, c: nat, i: nat, j: nat, w: Word, n: nat)
    requires Inv(m) && p != c && IsLeaf(m, p, i, j) && IsLeaf(m, c, i, j) && !Pte(m, c, i, j).present
    requires w == Pte(m, p, i, j) && w.present && !w.rw && Managed(m, w.frame) && n == (m.count[w.frame] + 1) % 256
    requires LeafChanged(m, m', c, i, j, w) && SameReserved(m, m') && m'.kernel == m.kernel
    requires m'.count == m.count[w.frame := n]
    ensures Inv(m')
  {
    assert Holds(m, Leaf(p, i, j), w.frame);
    ShareLeaf(m, m', c, i, j, w, p);
  }

  lemma ShareStored(m: Memory, c: nat, i: nat, j: nat, w: Word, n: nat)
    requires Shape(m) && Typed(m) && Exclusive(m) && IsLeaf(m, c, i, j) && Managed(m, w.frame)
    ensures Pde(m, c, i).frame < PAGING_PAGES && Managed(m, Pde(m, c, i).frame)
    ensures var m' := SetCount(Store(m, Pde(m, c, i).frame, j, w), w.frame, n);
            && SameReserved(m, m') && LeafChanged(m, m', c, i, j, w) && m'.kernel == m.kernel
            && m'.count == m.count[w.frame := n]
  {
    assert GoodPde(m, Pde(m, c, i));
    StoreLeaf(m, c, i, j, w);
  }

  // ---------- one table ----------

  ghost predicate EntriesCopied(m: Memory, m': Memory, p: nat, c: nat, i: nat, n: nat) {
    && i < USER_ENTRIES && n <= ENTRIES
    && SameFrame(m, m') && m'.kernel == m.kernel
    && (forall t, i': nat :: t in m.space && i' < ENTRIES ==> Pde(m', t, i') == Pde(m, t, i'))
    && (forall t, i': nat, j: nat :: t in m.space && i' < USER_ENTRIES && j < ENTRIES ==>
          SameTarget(if t == c && i' == i && j < n then Pte(m, p, i, j) else Pte(m, t, i', j), Pte(m', t, i', j)))
  }

  predicate CanCopyTable(m: Memory, p: nat, c: nat, i: nat, n: nat) {
    && c in m.space && i < USER_ENTRIES && n <= ENTRIES && Pde(m, c, i).present && p != c
    && (forall j: nat :: j < ENTRIES ==> !Pte(m, c, i, j).present)
    && (if p in m.space then Pde(m, p, i).present else p == 0 && i == 0 && n <= FIRST_FORK_PAGES)
  }

  ghost predicate CopyDone(m: Memory, m': Memory, p: nat, c: nat, i: nat, n: nat) {
    && Inv(m') && SameReserved(m, m') && EntriesCopied(m, m', p, c, i, n)
    && OnlyFrames(m, m', Pde(m, p, i).frame, Pde(m, c, i).frame)
  }

  lemma SameSource(m: Memory, m': Memory, p: nat, i: nat, j: nat)
    requires Swapper(m) && SameReserved(m, m') && p == 0 && p !in m.space && i == 0 && j < ENTRIES
    ensures Pde(m', p, i) == Pde(m, p, i) && Pte(m', p, i, j) == Pte(m, p, i, j)
  {
  }

  lemma CopyEntriesRound(m: Memory, m1: Memory, p: nat, c: nat, i: nat, j: nat, n: nat)
    requires Swapper(m) && CanCopyTable(m, p, c, i, n) && CopyDone(m, m1, p, c, i, j) && j < n
    requires Pde(m, p, i).frame < PAGING_PAGES && Pde(m, c, i).frame < PAGING_PAGES
    ensures CopyDone(m, CopyEntry(m1, Pde(m, p, i).frame, Pde(m, c, i).frame, j), p, c, i, j + 1)
  {
    if p !in m.space {
      SameSource(m, m1, p, i, j);
    }
    assert SameTarget(Pte(m, c, i, j), Pte(m1, c, i, j));
    assert Pde(m1, c, i) == Pde(m, c, i) && Pde(m1, p, i) == Pde(m, p, i);
    CopyEntryStep(m1, p, c, i, j);
    EntriesCopiedStep(m, m1, CopyEntry(m1, Pde(m, p, i).frame, Pde(m, c, i).frame, j), p, c, i, j);
  }

  lemma EntriesCopiedStep(m: Memory, m1: Memory, m2: Memory, p: nat, c: nat, i: nat, j: nat)
    requires EntriesCopied(m, m1, p, c, i, j) && EntryCopied(m1, m2, p, c, i, j) && j < ENTRIES && p != c
    requires SameTarget(Pte(m, p, i, j), Pte(m1, p, i, j))
    ensures EntriesCopied(m, m2, p, c, i, j + 1)
  {
    forall t, i': nat, j': nat | t in m.space && i' < USER_ENTRIES && j' < ENTRIES
      ensures SameTarget(if t == c && i' == i && j' < j + 1 then Pte(m, p, i, j') else Pte(m, t, i', j'),
                         Pte(m2, t, i', j'))
    {
      assert SameTarget(if t == c && i' == i && j' < j then Pte(m, p, i, j') else Pte(m, t, i', j'),
                        Pte(m1, t, i', j'));
      assert SameTarget(if t == c && i' == i && j' == j then Pte(m1, p, i, j) else Pte(m1, t, i', j'),
                        Pte(m2, t, i', j'));
    }
  }

  lemma CopyStart(m: Memory, p: nat, c: nat, i: nat, n: nat)
    requires Inv(m) && CanCopyTable(m, p, c, i, n)
    ensures Pde(m, p, i).frame < PAGING_PAGES && Pde(m, c, i).frame < PAGING_PAGES
    ensures CopyDone(m, m, p, c, i, 0)
  {
    assert GoodPde(m, Pde(m, c, i));
    assert p in m.space ==> GoodPde(m, Pde(m, p, i));
  }

  lemma {:induction false} CopyEntriesAll(m: Memory, p: nat, c: nat, i: nat, n: nat, f: nat, g: nat)
    returns (m': Memory)
    requires Inv(m) && CanCopyTable(m, p, c, i, n) && f == Pde(m, p, i).frame && g == Pde(m, c, i).frame
    ensures f < PAGING_PAGES && g < PAGING_PAGES
    ensures m' == CopyEntries(m, f, g, n) && CopyDone(m, m', p, c, i, n)
  {
    hide Shape, Typed, Exclusive, Counted, Guarded, Swapper;
    CopyStart(m, p, c, i, n);
    m' := m;
    for j := 0 to n
      invariant m' == CopyEntries(m, f, g, j)
      invariant CopyDone(m, m', p, c, i, j)
    {
      CopyEntriesRound(m, m', p, c, i, j, n);
      m' := CopyEntry(m', f, g, j);
    }
  }

  // ---------- nobody else notices ----------

  ghost predicate NotMapped(m: Memory, g: nat) {
    forall t, i: nat, j: nat ::
      t in m.space && i < USER_ENTRIES && j < ENTRIES && Pte(m, t, i, j).present ==> Pte(m, t, i, j).frame != g
  }

  lemma PayloadUndisturbed(m: Memory, m': Memory, g: nat)
    requires WalkSame(m, m') && OnlyFrame(m, m', g) && NotMapped(m, g)
    ensures AllUndisturbed(m, m')
  {
    forall t | t in m.space ensures Undisturbed(m, m', t) {
    }
  }

  lemma TableUndisturbed(m: Memory, m': Memory, c: nat, i: nat)
    requires c in m.space && SameFrame(m, m') && TableAdded(m, m', c, i)
    requires OnlyFrame(m, m', m.space[c]) && NotMapped(m, m.space[c])
    ensures OthersUndisturbed(m, m', c)
  {
    forall t | t in m.space && t != c ensures Undisturbed(m, m', t) {
    }
  }

  lemma CopyUndisturbed(m: Memory, m': Memory, p: nat, c: nat, i: nat, n: nat, f: nat, g: nat)
    requires EntriesCopied(m, m', p, c, i, n) && OnlyFrames(m, m', f, g) && NotMapped(m, g)
    requires NotMapped(m, f) || (f < m.low && SameReserved(m, m'))
    ensures OthersUndisturbed(m, m', c)
  {
    forall t | t in m.space && t != c ensures Undisturbed(m, m', t) {
      forall i': nat, j: nat | i' < USER_ENTRIES && j < ENTRIES
        ensures SameTarget(Pte(m, t, i', j), Pte(m', t, i', j))
      {
      }
    }
  }

  // ---------- one round of the directory loop ----------

  /** Below `pages`, table i of the child maps what the parent's maps; above, nothing. */
  ghost predicate Mirrors(m: Memory, p: nat, c: nat, i: nat, pages: nat) {
    forall j: nat :: j < ENTRIES ==>
      if j < pages then SameTarget(Pte(m, p, i, j), Pte(m, c, i, j)) else !Pte(m, c, i, j).present
  }

  /** The child's directory outside entry i, and all its tables there, are as before. */
  ghost predicate ChildKept(m: Memory, m': Memory, c: nat, i: nat) {
    && (forall i': nat :: i' < ENTRIES && i' != i ==> Pde(m', c, i') == Pde(m, c, i'))
    && (forall i': nat, j: nat :: i' < USER_ENTRIES && j < ENTRIES && i' != i ==>
          SameTarget(Pte(m, c, i', j), Pte(m', c, i', j)))
  }

  predicate ForkPair(m: Memory, p: nat, c: nat, pages: nat) {
    && c in m.space && p != c && (p in m.space || p == 0) && pages == PagesToCopy(p)
  }

  ghost predicate RoundDone(m: Memory, r: Outcome, p: nat, c: nat, i: nat, pages: nat) {
    && Inv(r.mem) && SameReserved(m, r.mem) && r.mem.kernel == m.kernel
    && OthersUndisturbed(m, r.mem, c) && ChildKept(m, r.mem, c, i)
    && (r.ok && i < USER_ENTRIES ==> Mirrors(r.mem, p, c, i, pages))
  }

  lemma CopyTableRound(m: Memory, p: nat, c: nat, i: nat, pages: nat)
    requires Inv(m) && ForkPair(m, p, c, pages) && i < ENTRIES && Pde(m, c, i) == ZERO
    ensures RoundDone(m, CopyTable(m, Cr3(m, p), m.space[c], i, pages), p, c, i, pages)
  {
    var w := Pde(m, p, i);
    forall t | t in m.space && t != c ensures Undisturbed(m, m, t) {
    }
    ParentEntry(m, p, i);
    if w == ZERO {
      assert ChildKept(m, m, c, i);
    } else if i >= USER_ENTRIES {
      KernelEntry(m, c, i, w);
      assert Holds(m, Dir(c), m.space[c]);
      Unmapped(m, m.space[c], Dir(c));
      KernelEntryUndisturbed(m, Store(m, m.space[c], i, w), c, i);
    } else if GetFreePage(m).NoPage? {
      assert ChildKept(m, m, c, i);
    } else {
      CopyUserTable(m, p, c, i, pages);
    }
  }

  /** What a parent's directory entry can be. */
  lemma ParentEntry(m: Memory, p: nat, i: nat)
    requires Shape(m) && Typed(m) && Swapper(m) && (p in m.space || p == 0) && i < ENTRIES
    ensures var w := Pde(m, p, i);
            w != ZERO ==>
              && w.present && w.frame < m.high
              && (i >= USER_ENTRIES ==> KernelPde(m, w) && Reserved(m, w.frame))
              && (i < USER_ENTRIES && p !in m.space ==> i == 0)
  {
    if p in m.space {
      assert if i < USER_ENTRIES then GoodPde(m, Pde(m, p, i)) else KernelPde(m, Pde(m, p, i));
    }
  }

  lemma KernelEntryUndisturbed(m: Memory, m': Memory, c: nat, i: nat)
    requires c in m.space && USER_ENTRIES <= i < ENTRIES && UserWalkSame(m, m') && SameReserved(m, m')
    requires OnlyFrame(m, m', m.space[c]) && NotMapped(m, m.space[c])
    requires forall i': nat :: i' < ENTRIES && i' != i ==> Pde(m', c, i') == Pde(m, c, i')
    ensures OthersUndisturbed(m, m', c) && ChildKept(m, m', c, i)
  {
    forall t | t in m.space && t != c ensures Undisturbed(m, m', t) {
    }
  }

  lemma CopyUserTable(m: Memory, p: nat, c: nat, i: nat, pages: nat)
    requires Inv(m) && ForkPair(m, p, c, pages) && i < USER_ENTRIES && Pde(m, c, i) == ZERO
    requires Pde(m, p, i).present && Pde(m, p, i).frame < m.high && (p !in m.space ==> i == 0)
    requires GetFreePage(m).Got?
    ensures RoundDone(m, CopyTable(m, Cr3(m, p), m.space[c], i, pages), p, c, i, pages)
  {
    hide Inv;
    GrowTable(m, c, i);
    var g := GetFreePage(m).page;
    var m1 := AttachTable(GetFreePage(m).mem, m.space[c], i, g);
    SourceKept(m, m1, p, i);
    CopyIntoFresh(m1, p, c, i, pages);
    var m2 := CopyEntries(m1, Pde(m, p, i).frame, g, pages);
    OthersTrans(m, m1, m2, c);
    ChildKeptTrans(m, m1, m2, c, i);
  }

  /** Allocating the table of an empty directory entry changes nobody's pages. */
  lemma GrowTable(m: Memory, t: nat, i: nat)
    requires Inv(m) && t in m.space && i < USER_ENTRIES && !Pde(m, t, i).present && GetFreePage(m).Got?
    ensures var g := GetFreePage(m).page;
            var m' := AttachTable(GetFreePage(m).mem, m.space[t], i, g);
            && Inv(m') && SameReserved(m, m') && m'.kernel == m.kernel && TableAdded(m, m', t, i)
            && Pde(m', t, i) == TableEntry(g) && OthersUndisturbed(m, m', t) && PagesKept(m, m', t)
  {
    var g, m1 := GetFreePage(m).page, GetFreePage(m).mem;
    GetFree(m);
    FreshUndisturbed(m);
    assert Undisturbed(m, m1, t);
    OthersFromAll(m, m1, t);
    FreshTable(m1, t, i, g);
    var m' := AttachTable(m1, m.space[t], i, g);
    OthersTrans(m, m1, m', t);
    KeptTrans(m, m1, m', t);
    TableAddedAfter(m, m1, m', t, i);
  }

  lemma TableAddedAfter(m: Memory, m1: Memory, m2: Memory, t: nat, i: nat)
    requires WalkSame(m, m1) && SameFrame(m1, m2) && TableAdded(m1, m2, t, i)
    ensures TableAdded(m, m2, t, i)
  {
  }

  /** The parent's directory entry is where it was. */
  lemma SourceKept(m: Memory, m': Memory, p: nat, i: nat)
    requires SameReserved(m, m') && i < USER_ENTRIES
    requires p in m.space ==> Pde(m', p, i) == Pde(m, p, i)
    ensures Pde(m', p, i) == Pde(m, p, i)
  {
  }

  lemma ChildKeptTrans(m: Memory, m1: Memory, m2: Memory, c: nat, i: nat)
    requires c in m.space && TableAdded(m, m1, c, i) && ChildKept(m1, m2, c, i)
    ensures ChildKept(m, m2, c, i)
  {
    forall i': nat, j: nat | i' < USER_ENTRIES && j < ENTRIES && i' != i
      ensures SameTarget(Pte(m, c, i', j), Pte(m2, c, i', j))
    {
      assert Pte(m1, c, i', j) == Pte(m, c, i', j);
    }
  }

  /** A fresh table for an empty directory entry disturbs nobody else. */
  lemma FreshTable(m: Memory, t: nat, i: nat, g: nat)
    requires Inv(m) && t in m.space && i < USER_ENTRIES && !Pde(m, t, i).present
    requires g in m.kernel && m.phys[g] == ZeroPage()
    ensures var m' := AttachTable(m, m.space[t], i, g);
            && Inv(m') && SameReserved(m, m') && SameFrame(m, m') && TableAdded(m, m', t, i)
            && Pde(m', t, i) == TableEntry(g) && OthersUndisturbed(m, m', t)
            && PagesKept(m, m', t)
  {
    NewTable(m, t, i, g);
    assert Holds(m, Dir(t), m.space[t]);
    Unmapped(m, m.space[t], Dir(t));
    TableUndisturbed(m, AttachTable(m, m.space[t], i, g), t, i);
  }

  lemma CopyIntoFresh(m: Memory, p: nat, c: nat, i: nat, pages: nat)
    requires Inv(m) && ForkPair(m, p, c, pages) && CanCopyTable(m, p, c, i, pages)
    ensures Pde(m, p, i).frame < PAGING_PAGES && Pde(m, c, i).frame < PAGING_PAGES
    ensures var m' := CopyEntries(m, Pde(m, p, i).frame, Pde(m, c, i).frame, pages);
            && Inv(m') && SameReserved(m, m') && m'.kernel == m.kernel
            && OthersUndisturbed(m, m', c) && ChildKept(m, m', c, i) && Mirrors(m', p, c, i, pages)
  {
    var f, g := Pde(m, p, i).frame, Pde(m, c, i).frame;
    var m' := CopyEntriesAll(m, p, c, i, pages, f, g);
    CopyTargetsUnmapped(m, p, c, i);
    CopyUndisturbed(m, m', p, c, i, pages, f, g);
    MirrorsAfterCopy(m, m', p, c, i, pages);
  }

  lemma CopyTargetsUnmapped(m: Memory, p: nat, c: nat, i: nat)
    requires Typed(m) && Exclusive(m) && Swapper(m) && i < USER_ENTRIES
    requires c in m.space && Pde(m, c, i).present
    requires if p in m.space then Pde(m, p, i).present else p == 0 && i == 0
    ensures NotMapped(m, Pde(m, c, i).frame)
    ensures NotMapped(m, Pde(m, p, i).frame) || Pde(m, p, i).frame < m.low
  {
    assert GoodPde(m, Pde(m, c, i));
    assert Holds(m, Table(c, i), Pde(m, c, i).frame);
    Unmapped(m, Pde(m, c, i).frame, Table(c, i));
    if p in m.space {
      assert GoodPde(m, Pde(m, p, i));
      assert Holds(m, Table(p, i), Pde(m, p, i).frame);
      Unmapped(m, Pde(m, p, i).frame, Table(p, i));
    }
  }

  lemma MirrorsAfterCopy(m: Memory, m': Memory, p: nat, c: nat, i: nat, pages: nat)
    requires Swapper(m) && SameReserved(m, m') && EntriesCopied(m, m', p, c, i, pages)
    requires ForkPair(m, p, c, pages) && CanCopyTable(m, p, c, i, pages)
    ensures Mirrors(m', p, c, i, pages) && ChildKept(m, m', c, i)
  {
    forall j: nat | j < ENTRIES
      ensures if j < pages then SameTarget(Pte(m', p, i, j), Pte(m', c, i, j)) else !Pte(m', c, i, j).present
    {
      assert SameTarget(if j < pages then Pte(m, p, i, j) else Pte(m, c, i, j), Pte(m', c, i, j));
      if p in m.space {
        assert SameTarget(Pte(m, p, i, j), Pte(m', p, i, j));
      } else {
        SameSource(m, m', p, i, j);
      }
    }
    forall i': nat, j: nat | i' < USER_ENTRIES && j < ENTRIES && i' != i
      ensures SameTarget(Pte(m, c, i', j), Pte(m', c, i', j))
    {
    }
  }

  lemma OthersFromAll(m: Memory, m': Memory, c: nat)
    requires AllUndisturbed(m, m')
    ensures OthersUndisturbed(m, m', c)
  {
  }

  /** get_free_page disturbs nobody. */
  lemma FreshUndisturbed(m: Memory)
    requires Inv(m) && GetFreePage(m).Got?
    ensures AllUndisturbed(m, GetFreePage(m).mem)
  {
    GetFree(m);
    var g := GetFreePage(m).page;
    forall t, i: nat, j: nat | t in m.space && i < USER_ENTRIES && j < ENTRIES && Pte(m, t, i, j).present
      ensures Pte(m, t, i, j).frame != g
    {
      assert Holds(m, Leaf(t, i, j), Pte(m, t, i, j).frame);
    }
    PayloadUndisturbed(m, GetFreePage(m).mem, g);
  }

  // ---------- the whole directory ----------

  ghost predicate TablesCopied(m: Memory, r: Outcome, p: nat, c: nat, n: nat, pages: nat) {
    && Inv(r.mem) && SameReserved(m, r.mem) && r.mem.kernel == m.kernel && OthersUndisturbed(m, r.mem, c)
    && (r.ok ==>
          && (forall i: nat :: i < n && i < USER_ENTRIES ==> Mirrors(r.mem, p, c, i, pages))
          && (forall i: nat :: n <= i < ENTRIES ==> Pde(r.mem, c, i) == ZERO))
  }

  lemma {:induction false} CopyTablesAll(m: Memory, p: nat, c: nat, n: nat, pages: nat)
    requires Inv(m) && ForkPair(m, p, c, pages) && n <= ENTRIES
    requires forall i: nat :: i < ENTRIES ==> Pde(m, c, i) == ZERO
    ensures TablesCopied(m, CopyTables(m, Cr3(m, p), m.space[c], pages, n), p, c, n, pages)
  {
    hide Shape, Typed, Exclusive, Counted, Guarded, Swapper;
    if n == 0 {
      forall t | t in m.space && t != c ensures Undisturbed(m, m, t) {
      }
    } else {
      CopyTablesAll(m, p, c, n - 1, pages);
      CopyTablesRound(m, CopyTables(m, Cr3(m, p), m.space[c], pages, n - 1), p, c, n - 1, pages);
    }
  }

  lemma CopyTablesRound(m: Memory, r: Outcome, p: nat, c: nat, i: nat, pages: nat)
    requires Swapper(m) && ForkPair(m, p, c, pages) && TablesCopied(m, r, p, c, i, pages) && i < ENTRIES
    ensures TablesCopied(m, if r.ok then CopyTable(r.mem, Cr3(m, p), m.space[c], i, pages) else r, p, c, i + 1, pages)
  {
    hide Inv;
    if r.ok {
      var r' := CopyTable(r.mem, Cr3(m, p), m.space[c], i, pages);
      assert Pde(r.mem, c, i) == ZERO;
      CopyTableRound(r.mem, p, c, i, pages);
      OthersTrans(m, r.mem, r'.mem, c);
      if r'.ok {
        forall i': nat | i' < i + 1 && i' < USER_ENTRIES ensures Mirrors(r'.mem, p, c, i', pages) {
          if i' < i {
            assert Mirrors(r.mem, p, c, i', pages);
            MirrorsKept(r.mem, r'.mem, p, c, i, i', pages);
          }
        }
      }
    }
  }

  lemma MirrorsKept(m: Memory, m': Memory, p: nat, c: nat, i: nat, i': nat, pages: nat)
    requires ForkPair(m, p, c, pages) && Mirrors(m, p, c, i', pages) && i' < USER_ENTRIES && i' != i
    requires Swapper(m) && SameReserved(m, m') && OthersUndisturbed(m, m', c) && ChildKept(m, m', c, i)
    ensures Mirrors(m', p, c, i', pages)
  {
    forall j: nat | j < ENTRIES
      ensures if j < pages then SameTarget(Pte(m', p, i', j), Pte(m', c, i', j)) else !Pte(m', c, i', j).present
    {
      assert SameTarget(Pte(m, c, i', j), Pte(m', c, i', j));
      assert if j < pages then SameTarget(Pte(m, p, i', j), Pte(m, c, i', j)) else !Pte(m, c, i', j).present;
      if p in m.space {
        assert Undisturbed(m, m', p);
        assert SameTarget(Pte(m, p, i', j), Pte(m', p, i', j));
      } else {
        assert Pte(m', p, i', j) == Pte(m, p, i', j);
      }
    }
  }

  // ---------- fork ----------

  /** Same references, same counts. */
  lemma SameCounts(m: Memory, m': Memory)
    requires Inv(m) && Inv(m') && SameBounds(m, m') && m'.space == m.space && m'.kernel == m.kernel
    requires AllUndisturbed(m, m')
    ensures m'.count == m.count
  {
    forall s, f ensures Holds(m', s, f) <==> Holds(m, s, f) {
      if !s.Kern? && s.t in m.space {
        assert Undisturbed(m, m', s.t);
      }
    }
    forall f | 0 <= f < PAGING_PAGES ensures m'.count[f] == m.count[f] {
      if Managed(m, f) {
        CountSame(m, m', f);
      }
    }
  }

  ghost predicate ReservedKept(m: Memory, m': Memory) {
    SameBounds(m, m') && forall f :: 0 <= f < m.low ==> m'.phys[f] == m.phys[f]
  }

  /** What copy_page_tables leaves behind. */
  ghost predicate Forked(m: Memory, r: Outcome, p: nat, c: nat) {
    && Inv(r.mem) && ReservedKept(m, r.mem) && AllUndisturbed(m, r.mem)
    && r.mem.kernel == m.kernel
    && (if r.ok
        then c in r.mem.space && r.mem.space.Keys == m.space.Keys + {c}
             && forall i: nat :: i < USER_ENTRIES ==> Mirrors(r.mem, p, c, i, PagesToCopy(p))
        else r.mem.space == m.space)
  }

  lemma CopySpace(m: Memory, p: nat, c: nat)
    requires Inv(m) && (p in m.space || p == 0) && c !in m.space && 1 <= c < NR_TASKS
    ensures Forked(m, CopyPageTables(m, p, c), p, c)
  {
    if GetFreePage(m).NoPage? {
      forall t | t in m.space ensures Undisturbed(m, m, t) {
      }
    } else {
      FreshSpace(m, c);
      var d := GetFreePage(m).page;
      FillSpace(m, AttachDir(GetFreePage(m).mem, c, d), p, c);
    }
  }

  /** A new, empty address space. */
  ghost predicate NewSpace(m: Memory, m': Memory, c: nat) {
    && Inv(m') && ReservedKept(m, m') && AllUndisturbed(m, m') && m'.kernel == m.kernel
    && c !in m.space && c in m'.space && m'.space == m.space[c := m'.space[c]]
    && (forall i: nat :: i < ENTRIES ==> Pde(m', c, i) == ZERO)
  }

  lemma FreshSpace(m: Memory, c: nat)
    requires Inv(m) && c !in m.space && 1 <= c < NR_TASKS && GetFreePage(m).Got?
    ensures NewSpace(m, AttachDir(GetFreePage(m).mem, c, GetFreePage(m).page), c)
  {
    GetFree(m);
    FreshUndisturbed(m);
    var d, m1 := GetFreePage(m).page, GetFreePage(m).mem;
    NewDir(m1, c, d);
    SpaceJoined(m, m1, AttachDir(m1, c, d), c);
  }

  lemma FillSpace(m: Memory, m1: Memory, p: nat, c: nat)
    requires NewSpace(m, m1, c) && (p in m.space || p == 0) && c != 0
    ensures var r := CopyTables(m1, Cr3(m, p), m1.space[c], PagesToCopy(p), ENTRIES);
            Forked(m, if r.ok then r else Outcome(false, FreePageTables(r.mem, c)), p, c)
  {
    assert Cr3(m1, p) == Cr3(m, p);
    CopyTablesAll(m1, p, c, ENTRIES, PagesToCopy(p));
    SpaceFilled(m, m1, CopyTables(m1, Cr3(m, p), m1.space[c], PagesToCopy(p), ENTRIES), p, c);
  }

  lemma SpaceFilled(m: Memory, m1: Memory, r: Outcome, p: nat, c: nat)
    requires NewSpace(m, m1, c) && TablesCopied(m1, r, p, c, ENTRIES, PagesToCopy(p))
    ensures c in r.mem.space
    ensures Forked(m, if r.ok then r else Outcome(false, FreePageTables(r.mem, c)), p, c)
  {
    AllAfterOthers(m, m1, r.mem, c);
    if !r.ok {
      UndoSpace(m, r.mem, c);
    }
  }

  lemma UndoSpace(m: Memory, m1: Memory, c: nat)
    requires Inv(m1) && ReservedKept(m, m1) && AllUndisturbed(m, m1) && m1.kernel == m.kernel
    requires c !in m.space && c in m1.space && m1.space == m.space[c := m1.space[c]]
    ensures var m' := FreePageTables(m1, c);
            Inv(m') && ReservedKept(m, m') && AllUndisturbed(m, m') && m'.kernel == m.kernel && m'.space == m.space
  {
    hide Inv;
    ExitTask(m1, c);
    AllAfterOthers(m, m1, FreePageTables(m1, c), c);
  }

  lemma SpaceJoined(m: Memory, m1: Memory, m2: Memory, c: nat)
    requires AllUndisturbed(m, m1) && c !in m.space && m1.space == m.space
    requires m2.phys == m1.phys && c in m2.space && m2.space == m1.space[c := m2.space[c]]
    ensures AllUndisturbed(m, m2)
  {
    forall t | t in m.space ensures Undisturbed(m, m2, t) {
      assert Undisturbed(m, m1, t);
      assert Undisturbed(m1, m2, t);
      UndisturbedTrans(m, m1, m2, t);
    }
  }

  lemma AllAfterOthers(m: Memory, m1: Memory, m2: Memory, c: nat)
    requires AllUndisturbed(m, m1) && OthersUndisturbed(m1, m2, c) && c !in m.space
    ensures AllUndisturbed(m, m2)
  {
    forall t | t in m.space ensures Undisturbed(m, m2, t) {
      assert Undisturbed(m, m1, t);
      UndisturbedTrans(m, m1, m2, t);
    }
  }

  /** The child reads what its parent reads; for task 0 only the first 640 KB. */
  lemma MirrorView(m: Memory, m': Memory, p: nat, c: nat, i: nat, j: nat, k: nat)
    requires Inv(m) && (p in m.space || p == 0) && i < USER_ENTRIES && j < ENTRIES && k < 1024
    requires ReservedKept(m, m') && AllUndisturbed(m, m') && p != c && (p == 0 ==> 0 !in m'.space)
    requires Mirrors(m', p, c, i, PagesToCopy(p))
    ensures View(m', c, i, j, k) == if j < PagesToCopy(p) then View(m, p, i, j, k) else None
  {
    assert if j < PagesToCopy(p) then SameTarget(Pte(m', p, i, j), Pte(m', c, i, j)) else !Pte(m', c, i, j).present;
    if p in m.space {
      assert Undisturbed(m, m', p);
      KeptView(m, m', p, i, j, k);
    } else if i == 0 && j < PagesToCopy(p) {
      assert View(m', p, i, j, k) == View(m, p, i, j, k);
    }
  }

  /** fork either gives the child its parent's memory, or changes no count at all; either way
      every existing task keeps its own. */
  lemma ForkTheorem(m: Memory, p: nat, c: nat)
    requires Inv(m) && (p in m.space || p == 0) && c !in m.space && 1 <= c < NR_TASKS
    ensures var r := Fork(m, p, c);
            && Inv(r.mem) && ReservedKept(m, r.mem) && AllUndisturbed(m, r.mem)
            && (r.ok ==> c in r.mem.space && r.mem.space.Keys == m.space.Keys + {c})
            && (r.ok ==> forall i: nat, j: nat, k: nat :: i < USER_ENTRIES && j < ENTRIES && k < 1024 ==>
                  View(r.mem, c, i, j, k) == if j < PagesToCopy(p) then View(m, p, i, j, k) else None)
            && (!r.ok ==> r.mem.count == m.count && r.mem.space == m.space && r.mem.kernel == m.kernel)
  {
    var r := Fork(m, p, c);
    if GetFreePage(m).NoPage? {
      forall t | t in m.space ensures Undisturbed(m, m, t) {
      }
    } else {
      GetFree(m);
      FreshUndisturbed(m);
      var q, m1 := GetFreePage(m).page, GetFreePage(m).mem;
      CopySpace(m1, p, c);
      var r1 := CopyPageTables(m1, p, c);
      AllTrans(m, m1, r1.mem);
      if r1.ok {
        ForkViews(m, r.mem, p, c);
      } else {
        ForkFails(m, r1.mem, q);
      }
    }
  }

  lemma ForkViews(m: Memory, m': Memory, p: nat, c: nat)
    requires Inv(m) && (p in m.space || p == 0) && p != c && (p == 0 ==> 0 !in m'.space)
    requires ReservedKept(m, m') && AllUndisturbed(m, m')
    requires forall i: nat :: i < USER_ENTRIES ==> Mirrors(m', p, c, i, PagesToCopy(p))
    ensures forall i: nat, j: nat, k: nat :: i < USER_ENTRIES && j < ENTRIES && k < 1024 ==>
              View(m', c, i, j, k) == if j < PagesToCopy(p) then View(m, p, i, j, k) else None
  {
    forall i: nat, j: nat, k: nat | i < USER_ENTRIES && j < ENTRIES && k < 1024
      ensures View(m', c, i, j, k) == if j < PagesToCopy(p) then View(m, p, i, j, k) else None
    {
      assert Mirrors(m', p, c, i, PagesToCopy(p));
      MirrorView(m, m', p, c, i, j, k);
    }
  }

  /** Giving back the task page ends a failed fork with every count as before. */
  lemma ForkFails(m: Memory, m1: Memory, q: nat)
    requires Inv(m) && Inv(m1) && ReservedKept(m, m1) && AllUndisturbed(m, m1) && m1.space == m.space
    requires q < PAGING_PAGES && q !in m.kernel && m1.kernel == m.kernel + {q}
    ensures var m' := FreeHeld(m1, q);
            && Inv(m') && ReservedKept(m, m') && AllUndisturbed(m, m')
            && m'.count == m.count && m'.space == m.space && m'.kernel == m.kernel
  {
    var m' := FreeHeld(m1, q);
    GiveBack(m1, q);
    HeldUndisturbed(m1, q);
    AllTrans(m, m1, m');
    assert m'.kernel == m.kernel;
    SameCounts(m, m');
  }

  lemma HeldUndisturbed(m: Memory, f: nat)
    requires WalkSame(m, FreeHeld(m, f))
    ensures AllUndisturbed(m, FreeHeld(m, f))
  {
    forall t | t in m.space ensures Undisturbed(m, FreeHeld(m, f), t) {
    }
  }
}
